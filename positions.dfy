/**
 * The Position record of code/main.py is built at run time by `make_dataclass`
 * from the field names name, lat and lon, with no defaults. Its generated
 * `__init__` takes `self` and those three fields, all three required.
 * The module models how a call binds its
 * positional and keyword arguments to those parameters, in the order the
 * CPython interpreter checks them, and which TypeError a failed call raises:
 *   1. each keyword in turn: a name that is no parameter is an unexpected
 *      keyword; a parameter that already holds a value gets multiple values;
 *   2. more positional arguments than parameters;
 *   3. the parameters still unbound, listed in declaration order.
 * The generated `__init__` calls its own first parameter `self`, or
 * `__dataclass_self__` when some field is itself named `self`.
 * Argument values are left abstract (type parameter V).
 */
module Positions {
  import opened Results
  import opened Sequences

  /** The TypeErrors a call of the generated `__init__` can raise while binding arguments. */
  datatype InitError =
    | UnexpectedKeyword(keyword: string)
    | MultipleValues(argument: string)
      // `takes` and `given` count the `self` parameter, as the message does
    | TooManyPositional(takes: nat, given: nat)
    | MissingArguments(names: seq<string>)

  /** The name of the generated `__init__`'s own first parameter. */
  function SelfName(fields: seq<string>): (n: string)
    ensures n == "self" <==> "self" !in fields
    ensures "__dataclass_self__" !in fields ==> n !in fields
  {
    if "self" in fields then "__dataclass_self__" else "self"
  }

  /** The position of parameter `k` among the fields (its first occurrence). */
  function IndexOf(fields: seq<string>, k: string): (i: nat)
    requires k in fields
    ensures i < |fields| && fields[i] == k
    ensures forall j :: 0 <= j < i ==> fields[j] != k
  {
    if fields[0] == k then 0 else 1 + IndexOf(fields[1..], k)
  }

  /** The parameter slots after the positional arguments are copied in (surplus ones are dropped here and reported later). */
  function PositionalSlots<V>(fields: seq<string>, positional: seq<V>): (slots: seq<Option<V>>)
    ensures |slots| == |fields|
    ensures forall i :: 0 <= i < |fields| ==> slots[i] == if i < |positional| then Some(positional[i]) else None
  {
    seq(|fields|, i requires 0 <= i < |fields| => if i < |positional| then Some(positional[i]) else None)
  }

  /** Binds the keyword arguments one after another, stopping at the first that cannot be bound. */
  function BindKeywords<V>(fields: seq<string>, slots: seq<Option<V>>, keywords: seq<(string, V)>)
    : (r: Result<seq<Option<V>>, InitError>)
    requires |slots| == |fields|
    ensures r.Ok? ==> |r.value| == |fields|
    ensures r.Ok? ==> forall i :: 0 <= i < |slots| && slots[i].Some? ==> r.value[i] == slots[i]
    decreases |keywords|
  {
    if keywords == [] then Ok(slots)
    else
      var k := keywords[0].0;
      if k == SelfName(fields) then Err(MultipleValues(k))
      else if k !in fields then Err(UnexpectedKeyword(k))
      else
        var j := IndexOf(fields, k);
        if slots[j].Some? then Err(MultipleValues(k))
        else BindKeywords(fields, slots[j := Some(keywords[0].1)], keywords[1..])
  }

  /** The names of the parameters left without a value, in declaration order. */
  function MissingNames<V>(fields: seq<string>, slots: seq<Option<V>>): (r: seq<string>)
    requires |slots| == |fields|
    ensures r == [] <==> forall i :: 0 <= i < |slots| ==> slots[i].Some?
    ensures forall n :: n in r ==> n in fields
    ensures forall n :: n in r <==> exists i :: 0 <= i < |fields| && slots[i].None? && fields[i] == n
  {
    if fields == [] then []
    else (if slots[0].None? then [fields[0]] else []) + MissingNames(fields[1..], slots[1..])
  }

  /** The names `r` are fields listed in declaration order, each after the one before it. */
  ghost predicate InFieldOrder(fields: seq<string>, r: seq<string>) {
    forall a, b :: 0 <= a < b < |r| ==> r[a] in fields && r[b] in fields && IndexOf(fields, r[a]) < IndexOf(fields, r[b])
  }

  /** The missing names come in declaration order. */
  lemma {:induction false} MissingNamesInOrder<V>(fields: seq<string>, slots: seq<Option<V>>)
    requires |slots| == |fields| && Distinct(fields)
    ensures InFieldOrder(fields, MissingNames(fields, slots))
  {
    if fields != [] {
      var head: seq<string> := if slots[0].None? then [fields[0]] else [];
      var rest := MissingNames(fields[1..], slots[1..]);
      assert MissingNames(fields, slots) == head + rest;
      DistinctTail(fields);
      MissingNamesInOrder(fields[1..], slots[1..]);
      InFieldOrderCons(fields, head, rest);
    }
  }

  /** Prefixing the first field, or nothing, to names in the order of the remaining fields keeps field order. */
  lemma InFieldOrderCons(fields: seq<string>, head: seq<string>, rest: seq<string>)
    requires Distinct(fields) && |fields| > 0
    requires head == [] || head == [fields[0]]
    requires forall n :: n in rest ==> n in fields[1..]
    requires InFieldOrder(fields[1..], rest)
    ensures InFieldOrder(fields, head + rest)
  {
    var r := head + rest;
    var h := |head|;
    IndicesShifted(fields, rest);
    if h == 0 {
      assert r == rest;
    } else {
      forall a, b | 0 <= a < b < |r| ensures r[a] in fields && r[b] in fields && IndexOf(fields, r[a]) < IndexOf(fields, r[b]) {
        assert r[b] == rest[b - 1];
        if a == 0 {
          assert r[a] == fields[0] && IndexOf(fields, fields[0]) == 0;
        } else {
          assert r[a] == rest[a - 1];
        }
      }
    }
  }

  /** Names drawn from the fields past the first sit one position further along in all of the fields. */
  lemma IndicesShifted(fields: seq<string>, rest: seq<string>)
    requires Distinct(fields) && |fields| > 0
    requires forall n :: n in rest ==> n in fields[1..]
    ensures forall k :: 0 <= k < |rest| ==> rest[k] in fields && IndexOf(fields, rest[k]) == 1 + IndexOf(fields[1..], rest[k])
  {
    forall k | 0 <= k < |rest| ensures rest[k] in fields && IndexOf(fields, rest[k]) == 1 + IndexOf(fields[1..], rest[k]) {
      assert rest[k] in rest;
      IndexOfTail(fields, rest[k]);
    }
  }

  /** A field past the first has its position in the tail, shifted by one. */
  lemma IndexOfTail(fields: seq<string>, x: string)
    requires Distinct(fields) && |fields| > 0 && x in fields[1..]
    ensures x in fields && IndexOf(fields, x) == 1 + IndexOf(fields[1..], x)
  {
    var k :| 0 <= k < |fields[1..]| && fields[1..][k] == x;
    assert fields[k + 1] == x && fields[0] != fields[k + 1];
  }

  /** The call `Cls(*positional, **keywords)` of a dataclass with fields `fields` and no defaults: the bound field values, or the TypeError. */
  function Init<V>(fields: seq<string>, positional: seq<V>, keywords: seq<(string, V)>)
    : (r: Result<seq<V>, InitError>)
    ensures r.Ok? ==> |r.value| == |fields|
    ensures r.Ok? ==> |positional| <= |fields| && forall i :: 0 <= i < |positional| ==> r.value[i] == positional[i]
    ensures |positional| > |fields| ==> r.Err?
  {
    match BindKeywords(fields, PositionalSlots(fields, positional), keywords)
    case Err(e) => Err(e)
    case Ok(slots) =>
      if |positional| > |fields| then Err(TooManyPositional(|fields| + 1, |positional| + 1))
      else
        var missing := MissingNames(fields, slots);
        if missing != [] then Err(MissingArguments(missing))
        else Ok(seq(|slots|, i requires 0 <= i < |slots| => slots[i].value))
  }

  // ---------------------------------------------------------------------------
  // A reference description of a successful call
  // ---------------------------------------------------------------------------

  function KeywordNames<V>(keywords: seq<(string, V)>): (r: seq<string>)
    ensures |r| == |keywords| && forall t :: 0 <= t < |keywords| ==> r[t] == keywords[t].0
  {
    seq(|keywords|, t requires 0 <= t < |keywords| => keywords[t].0)
  }

  /** The value of the first keyword argument called `name`, if any. */
  function Lookup<V>(keywords: seq<(string, V)>, name: string): (r: Option<V>)
    ensures r.Some? <==> name in KeywordNames(keywords)
  {
    if keywords == [] then None
    else if keywords[0].0 == name then Some(keywords[0].1)
    else Lookup(keywords[1..], name)
  }

  /**
   * A call binds: no more positional arguments than fields; every keyword names
   * a field that no positional argument took; no keyword is given twice; and
   * every field that no positional argument took is named by a keyword.
   */
  ghost predicate ArgumentsFit<V>(fields: seq<string>, positional: seq<V>, keywords: seq<(string, V)>) {
    && |positional| <= |fields|
    && (forall t :: 0 <= t < |keywords| ==> keywords[t].0 in fields && IndexOf(fields, keywords[t].0) >= |positional|)
    && Distinct(KeywordNames(keywords))
    && (forall i :: |positional| <= i < |fields| ==> fields[i] in KeywordNames(keywords))
  }

  /** The keywords fit slots `slots`: each names a field whose slot is empty, and none is repeated. */
  ghost predicate KeywordsFit<V>(fields: seq<string>, slots: seq<Option<V>>, keywords: seq<(string, V)>)
    requires |slots| == |fields|
  {
    && (forall t :: 0 <= t < |keywords| ==> keywords[t].0 in fields && slots[IndexOf(fields, keywords[t].0)].None?)
    && Distinct(KeywordNames(keywords))
  }

  /** The slots once the keywords are bound: a filled slot keeps its value, an empty one takes its keyword's. */
  function Filled<V>(fields: seq<string>, slots: seq<Option<V>>, keywords: seq<(string, V)>): (r: seq<Option<V>>)
    requires |slots| == |fields|
    ensures |r| == |fields|
    ensures forall i :: 0 <= i < |fields| ==> r[i] == if slots[i].Some? then slots[i] else Lookup(keywords, fields[i])
  {
    seq(|fields|, i requires 0 <= i < |fields| => if slots[i].Some? then slots[i] else Lookup(keywords, fields[i]))
  }

  lemma IndexOfDistinct(fields: seq<string>, i: nat)
    requires Distinct(fields) && i < |fields|
    ensures IndexOf(fields, fields[i]) == i
  {
  }

  /** Keyword binding succeeds exactly when the keywords fit the slots, and then fills them as `Filled` says. */
  lemma {:induction false} BindKeywordsSpec<V>(fields: seq<string>, slots: seq<Option<V>>, keywords: seq<(string, V)>)
    requires |slots| == |fields| && Distinct(fields) && SelfName(fields) !in fields
    ensures BindKeywords(fields, slots, keywords).Ok? <==> KeywordsFit(fields, slots, keywords)
    ensures BindKeywords(fields, slots, keywords).Ok? ==> BindKeywords(fields, slots, keywords).value == Filled(fields, slots, keywords)
    decreases |keywords|
  {
    if keywords == [] {
      assert Filled(fields, slots, keywords) == slots;
    } else {
      var k := keywords[0].0;
      var v := keywords[0].1;
      var rest := keywords[1..];
      if k !in fields {
        assert !KeywordsFit(fields, slots, keywords) by { assert keywords[0].0 !in fields; }
      } else {
        var j := IndexOf(fields, k);
        if slots[j].Some? {
          assert !KeywordsFit(fields, slots, keywords) by { assert !slots[IndexOf(fields, keywords[0].0)].None?; }
        } else {
          var next := slots[j := Some(v)];
          BindKeywordsSpec(fields, next, rest);
          FitStep(fields, slots, keywords);
          if KeywordsFit(fields, next, rest) {
            FilledStep(fields, slots, keywords);
          }
        }
      }
    }
  }

  /** One keyword step: fitting the original slots is fitting the updated slots with the remaining keywords. */
  lemma FitStep<V>(fields: seq<string>, slots: seq<Option<V>>, keywords: seq<(string, V)>)
    requires |slots| == |fields| && Distinct(fields) && |keywords| > 0
    requires keywords[0].0 in fields && slots[IndexOf(fields, keywords[0].0)].None?
    ensures var j := IndexOf(fields, keywords[0].0);
      KeywordsFit(fields, slots, keywords) <==> KeywordsFit(fields, slots[j := Some(keywords[0].1)], keywords[1..])
  {
    var k := keywords[0].0;
    var j := IndexOf(fields, k);
    var next := slots[j := Some(keywords[0].1)];
    var rest := keywords[1..];
    var names := KeywordNames(keywords);
    assert KeywordNames(rest) == names[1..];
    if KeywordsFit(fields, slots, keywords) {
      forall t | 0 <= t < |rest|
        ensures rest[t].0 in fields && next[IndexOf(fields, rest[t].0)].None?
      {
        assert rest[t] == keywords[t + 1];
        assert names[0] != names[t + 1];
      }
      DistinctTail(names);
    }
    if KeywordsFit(fields, next, rest) {
      forall t | 0 <= t < |keywords|
        ensures keywords[t].0 in fields && slots[IndexOf(fields, keywords[t].0)].None?
      {
        if t > 0 { assert keywords[t] == rest[t - 1]; }
      }
      forall a, b | 0 <= a < b < |names| ensures names[a] != names[b] {
        if a == 0 {
          assert keywords[b] == rest[b - 1];
          assert next[IndexOf(fields, rest[b - 1].0)].None?;
        } else {
          assert names[a] == KeywordNames(rest)[a - 1] && names[b] == KeywordNames(rest)[b - 1];
        }
      }
    }
  }

  lemma DistinctTail<T>(s: seq<T>)
    requires Distinct(s) && |s| > 0
    ensures Distinct(s[1..])
  {
    forall a, b | 0 <= a < b < |s[1..]| ensures s[1..][a] != s[1..][b] {
      assert s[1..][a] == s[a + 1] && s[1..][b] == s[b + 1];
    }
  }

  /** One keyword step: filling the updated slots with the remaining keywords is filling the original ones. */
  lemma FilledStep<V>(fields: seq<string>, slots: seq<Option<V>>, keywords: seq<(string, V)>)
    requires |slots| == |fields| && Distinct(fields) && |keywords| > 0
    requires keywords[0].0 in fields && slots[IndexOf(fields, keywords[0].0)].None?
    ensures var j := IndexOf(fields, keywords[0].0);
      Filled(fields, slots[j := Some(keywords[0].1)], keywords[1..]) == Filled(fields, slots, keywords)
  {
    var k := keywords[0].0;
    var j := IndexOf(fields, k);
    var next := slots[j := Some(keywords[0].1)];
    var a := Filled(fields, next, keywords[1..]);
    var b := Filled(fields, slots, keywords);
    forall i | 0 <= i < |fields| ensures a[i] == b[i] {
      if i != j && slots[i].None? {
        assert fields[i] != k by { IndexOfDistinct(fields, i); }
      }
    }
  }

  /** The positional slots fit the keywords exactly when every keyword names a field beyond the positional ones, once. */
  lemma PositionalFit<V>(fields: seq<string>, positional: seq<V>, keywords: seq<(string, V)>)
    ensures KeywordsFit(fields, PositionalSlots(fields, positional), keywords) <==>
      (forall t :: 0 <= t < |keywords| ==> keywords[t].0 in fields && IndexOf(fields, keywords[t].0) >= |positional|)
      && Distinct(KeywordNames(keywords))
  {
  }

  /**
   * A call of the generated `__init__` succeeds exactly when its arguments fit
   * the fields, and then the i-th field holds the i-th positional argument, or,
   * past those, the keyword argument of its name.
   */
  lemma InitSpec<V>(fields: seq<string>, positional: seq<V>, keywords: seq<(string, V)>)
    requires Distinct(fields) && SelfName(fields) !in fields
    ensures Init(fields, positional, keywords).Ok? <==> ArgumentsFit(fields, positional, keywords)
    ensures Init(fields, positional, keywords).Ok? ==>
      forall i :: 0 <= i < |fields| ==>
        Init(fields, positional, keywords).value[i] ==
          if i < |positional| then positional[i] else Lookup(keywords, fields[i]).value
  {
    var slots := PositionalSlots(fields, positional);
    BindKeywordsSpec(fields, slots, keywords);
    PositionalFit(fields, positional, keywords);
    if KeywordsFit(fields, slots, keywords) && |positional| <= |fields| {
      InitOfFit(fields, positional, keywords);
    }
  }

  /** Once the keywords fit, the call succeeds exactly when every field past the positional ones has a keyword. */
  lemma InitOfFit<V>(fields: seq<string>, positional: seq<V>, keywords: seq<(string, V)>)
    requires |positional| <= |fields|
    requires KeywordsFit(fields, PositionalSlots(fields, positional), keywords)
    requires BindKeywords(fields, PositionalSlots(fields, positional), keywords)
      == Ok(Filled(fields, PositionalSlots(fields, positional), keywords))
    ensures Init(fields, positional, keywords).Ok? <==>
      forall i :: |positional| <= i < |fields| ==> fields[i] in KeywordNames(keywords)
    ensures Init(fields, positional, keywords).Ok? ==>
      forall i :: 0 <= i < |fields| ==>
        Init(fields, positional, keywords).value[i] ==
          if i < |positional| then positional[i] else Lookup(keywords, fields[i]).value
  {
    var filled := Filled(fields, PositionalSlots(fields, positional), keywords);
    assert forall i :: 0 <= i < |fields| ==>
      filled[i] == if i < |positional| then Some(positional[i]) else Lookup(keywords, fields[i]);
    var r := Init(fields, positional, keywords);
    assert r.Ok? <==> MissingNames(fields, filled) == [];
  }

  /** A field that receives no argument, positionally or by keyword, makes the call fail. */
  lemma UnboundFieldFails<V>(fields: seq<string>, positional: seq<V>, keywords: seq<(string, V)>, i: nat)
    requires Distinct(fields) && SelfName(fields) !in fields
    requires |positional| <= i < |fields| && fields[i] !in KeywordNames(keywords)
    ensures Init(fields, positional, keywords).Err?
  {
    InitSpec(fields, positional, keywords);
  }

  // ---------------------------------------------------------------------------
  // Position
  // ---------------------------------------------------------------------------

  /** The fields of `Position`, in declaration order; none has a default. */
  const PositionFields: seq<string> := ["name", "lat", "lon"]

  datatype Position<V> = Position(name: V, lat: V, lon: V)

  /** `Position(*positional, **keywords)` */
  function NewPosition<V>(positional: seq<V>, keywords: seq<(string, V)>): (r: Result<Position<V>, InitError>)
    ensures |positional| > 3 ==> r.Err?
    ensures r.Ok? && |positional| == 3 ==> r.value == Position(positional[0], positional[1], positional[2])
  {
    match Init(PositionFields, positional, keywords)
    case Err(e) => Err(e)
    case Ok(vs) => Ok(Position(vs[0], vs[1], vs[2]))
  }

  lemma PositionFieldsDistinct()
    ensures Distinct(PositionFields) && SelfName(PositionFields) !in PositionFields
  {
  }

  /** Three positional arguments bind in field order: name, then lat, then lon. */
  lemma PositionalBinding<V>(name: V, lat: V, lon: V)
    ensures NewPosition([name, lat, lon], []) == Ok(Position(name, lat, lon))
  {
    var empty: seq<(string, V)> := [];
    PositionFieldsDistinct();
    InitSpec(PositionFields, [name, lat, lon], empty);
  }

  /** Fewer than three arguments in all, positional and keyword together, can never build a Position. */
  lemma FewArgumentsFail<V>(positional: seq<V>, keywords: seq<(string, V)>)
    requires |positional| + |keywords| < 3
    ensures NewPosition(positional, keywords).Err?
  {
    FitNeedsThree(positional, keywords);
    PositionFieldsDistinct();
    InitSpec(PositionFields, positional, keywords);
  }

  /** Arguments that fit the three fields number at least three: each field not taken positionally needs its own keyword. */
  lemma FitNeedsThree<V>(positional: seq<V>, keywords: seq<(string, V)>)
    ensures ArgumentsFit(PositionFields, positional, keywords) ==> |positional| + |keywords| >= 3
  {
    if ArgumentsFit(PositionFields, positional, keywords) {
      var names := KeywordNames(keywords);
      if |positional| == 2 {
        assert PositionFields[2] in names;
      } else if |positional| == 0 {
        assert PositionFields[0] == "name" && PositionFields[1] == "lat" && PositionFields[2] == "lon";
        ThreeMembers(names, "name", "lat", "lon");
      } else if |positional| == 1 {
        assert PositionFields[1] == "lat" && PositionFields[2] == "lon";
        TwoMembers(names, "lat", "lon");
      }
    }
  }

  /** A sequence holding two different values has at least two elements. */
  lemma TwoMembers(names: seq<string>, a: string, b: string)
    requires a != b && a in names && b in names
    ensures |names| >= 2
  {
    var i, j := IndexOf(names, a), IndexOf(names, b);
    assert i != j;
  }

  /** A sequence holding three different values has at least three elements. */
  lemma ThreeMembers(names: seq<string>, a: string, b: string, c: string)
    requires a != b && b != c && a != c && a in names && b in names && c in names
    ensures |names| >= 3
  {
    var i, j, k := IndexOf(names, a), IndexOf(names, b), IndexOf(names, c);
    assert i != j && j != k && i != k;
  }

  /** Keyword arguments bind by name, in any order. */
  lemma KeywordBinding<V>(name: V, lat: V, lon: V)
    ensures NewPosition([name], [("lon", lon), ("lat", lat)]) == Ok(Position(name, lat, lon))
  {
    PositionFieldsDistinct();
    var kws := [("lon", lon), ("lat", lat)];
    assert KeywordNames(kws) == ["lon", "lat"];
    assert IndexOf(PositionFields, "lat") == 1 && IndexOf(PositionFields, "lon") == 2;
    assert kws[0] == ("lon", lon) && kws[1..] == [("lat", lat)];
    assert Lookup(kws, "lon") == Some(lon);
    assert Lookup(kws, "lat") == Some(lat);
    InitSpec(PositionFields, [name], kws);
  }

  /** `Position('Null Island')`: lat and lon are missing. */
  lemma NameOnlyFails<V>(name: V)
    ensures NewPosition([name], []) == Err(MissingArguments(["lat", "lon"]))
  {
    var empty: seq<(string, V)> := [];
    var slots := PositionalSlots(PositionFields, [name]);
    assert slots == [Some(name), None, None];
    assert BindKeywords(PositionFields, slots, empty) == Ok(slots);
    MissingTwo(name);
  }

  lemma MissingTwo<V>(name: V)
    ensures MissingNames(PositionFields, [Some(name), None, None]) == ["lat", "lon"]
  {
    var slots: seq<Option<V>> := [Some(name), None, None];
    assert PositionFields[1..] == ["lat", "lon"] && slots[1..] == [None, None];
    assert PositionFields[1..][1..] == ["lon"] && slots[1..][1..] == [None];
    var last: seq<Option<V>> := [None];
    assert MissingNames(["lon"], last) == ["lon"];
  }

  /** `Position('Greenwich', lat=51.8)`: lon is missing. */
  lemma NameAndLatFails<V>(name: V, lat: V)
    ensures NewPosition([name], [("lat", lat)]) == Err(MissingArguments(["lon"]))
  {
    var slots := PositionalSlots(PositionFields, [name]);
    assert slots == [Some(name), None, None];
    assert IndexOf(PositionFields, "lat") == 1;
    var next := slots[1 := Some(lat)];
    assert next == [Some(name), Some(lat), None];
    assert SelfName(PositionFields) == "self";
    assert [("lat", lat)][1..] == [];
    assert BindKeywords(PositionFields, slots, [("lat", lat)]) == Ok(next);
    MissingOne(name, lat);
  }

  lemma MissingOne<V>(name: V, lat: V)
    ensures MissingNames(PositionFields, [Some(name), Some(lat), None]) == ["lon"]
  {
    var slots: seq<Option<V>> := [Some(name), Some(lat), None];
    assert PositionFields[1..] == ["lat", "lon"] && slots[1..] == [Some(lat), None];
    assert PositionFields[1..][1..] == ["lon"] && slots[1..][1..] == [None];
    var last: seq<Option<V>> := [None];
    assert MissingNames(["lon"], last) == ["lon"];
  }

  /** A keyword that is no field, or that repeats a positional argument, is rejected before anything else. */
  lemma KeywordErrors<V>(name: V, lat: V, lon: V)
    ensures NewPosition([name, lat, lon], [("lat", lat)]) == Err(MultipleValues("lat"))
    ensures NewPosition([name, lat, lon, lon], [("alt", lon)]) == Err(UnexpectedKeyword("alt"))
    ensures NewPosition([name], [("self", lat)]) == Err(MultipleValues("self"))
  {
    assert IndexOf(PositionFields, "lat") == 1;
    assert PositionalSlots(PositionFields, [name, lat, lon])[1] == Some(lat);
  }

  /** Four positional arguments: `__init__() takes 4 positional arguments but 5 were given`. */
  lemma TooManyFails<V>(name: V, lat: V, lon: V, extra: V)
    ensures NewPosition([name, lat, lon, extra], []) == Err(TooManyPositional(4, 5))
  {
  }
}
