/**
 * The read endpoints of the web front end (`index` and `update_doc`): fetch the
 * temperature readings, pick the one with the largest timestamp, render its timestamp
 * and strip the store identifier.
 */
module Query {
  import opened Wrappers
  import opened Documents

  /** The Python exceptions the two endpoints can raise. */
  datatype Error = IndexError | KeyError(key: string) | TypeError

  function Last<T>(s: seq<T>): T
    requires |s| > 0
  {
    s[|s| - 1]
  }

  /** `collection.find({"sensorType": sensorType})`, with the store returning its documents in order. */
  function Find(store: seq<Record>, sensorType: string): (found: seq<Record>)
    ensures forall r :: r in found <==> r in store && IsOfType(r, sensorType)
    ensures multiset(found) <= multiset(store)
  {
    if store == [] then []
    else
      var init := store[..|store| - 1];
      assert store == init + [Last(store)];
      Find(init, sensorType) + if IsOfType(Last(store), sensorType) then [Last(store)] else []
  }

  lemma FindAppend(store: seq<Record>, r: Record, sensorType: string)
    ensures Find(store + [r], sensorType)
            == Find(store, sensorType) + if IsOfType(r, sensorType) then [r] else []
  {
    assert (store + [r])[..|store|] == store;
  }

  predicate AllTimestamped(rs: seq<Record>) {
    forall k :: 0 <= k < |rs| ==> HasIntTimestamp(rs[k])
  }

  predicate SortedByTimestamp(rs: seq<Record>)
    requires AllTimestamped(rs)
  {
    forall i, j :: 0 <= i < j < |rs| ==> Timestamp(rs[i]) <= Timestamp(rs[j])
  }

  /** One step of a stable sort: `r` goes after every element whose timestamp is not larger. */
  function InsertByTimestamp(r: Record, sorted: seq<Record>): (out: seq<Record>)
    requires HasIntTimestamp(r) && AllTimestamped(sorted)
    ensures AllTimestamped(out) && |out| == |sorted| + 1
    ensures multiset(out) == multiset(sorted) + multiset{r}
  {
    if sorted == [] then [r]
    else if Timestamp(r) < Timestamp(sorted[0]) then [r] + sorted
    else
      assert sorted == [sorted[0]] + sorted[1..];
      [sorted[0]] + InsertByTimestamp(r, sorted[1..])
  }

  lemma InsertedFrom(r: Record, sorted: seq<Record>, x: Record)
    requires HasIntTimestamp(r) && AllTimestamped(sorted)
    requires x in InsertByTimestamp(r, sorted)
    ensures x == r || x in sorted
  {
    assert x in multiset(InsertByTimestamp(r, sorted));
  }

  /** A record no later than any element of a sorted list can go in front of it. */
  lemma SortedCons(x: Record, rest: seq<Record>)
    requires HasIntTimestamp(x) && AllTimestamped(rest) && SortedByTimestamp(rest)
    requires forall k :: 0 <= k < |rest| ==> Timestamp(x) <= Timestamp(rest[k])
    ensures AllTimestamped([x] + rest) && SortedByTimestamp([x] + rest)
  {
    var out := [x] + rest;
    assert forall k :: 0 < k < |out| ==> out[k] == rest[k - 1];
  }

  lemma {:induction false} InsertKeepsSorted(r: Record, sorted: seq<Record>)
    requires HasIntTimestamp(r) && AllTimestamped(sorted) && SortedByTimestamp(sorted)
    ensures SortedByTimestamp(InsertByTimestamp(r, sorted))
  {
    if sorted == [] {
    } else if Timestamp(r) < Timestamp(sorted[0]) {
      SortedCons(r, sorted);
    } else {
      var tail := sorted[1..];
      var rest := InsertByTimestamp(r, tail);
      InsertKeepsSorted(r, tail);
      forall k | 0 <= k < |rest| ensures Timestamp(sorted[0]) <= Timestamp(rest[k]) {
        InsertedFrom(r, tail, rest[k]);
      }
      SortedCons(sorted[0], rest);
    }
  }

  /** The last element after an insertion: `r` when no timestamp before it is larger. */
  lemma {:induction false} InsertLast(r: Record, sorted: seq<Record>)
    requires HasIntTimestamp(r) && AllTimestamped(sorted) && SortedByTimestamp(sorted) && sorted != []
    ensures Last(InsertByTimestamp(r, sorted))
            == if Timestamp(r) >= Timestamp(Last(sorted)) then r else Last(sorted)
  {
    var out := InsertByTimestamp(r, sorted);
    if Timestamp(r) < Timestamp(sorted[0]) {
      assert out == [r] + sorted;
      assert Timestamp(sorted[0]) <= Timestamp(Last(sorted));
    } else {
      var tail := sorted[1..];
      var rest := InsertByTimestamp(r, tail);
      assert out == [sorted[0]] + rest;
      assert Last(out) == Last(rest);
      if tail != [] {
        InsertLast(r, tail);
        assert Last(tail) == Last(sorted);
      }
    }
  }

  /** `sorted(rs, key=lambda x: x["timestamp"])`: ascending, and stable (Python's sort is). */
  function SortByTimestamp(rs: seq<Record>): (out: seq<Record>)
    requires AllTimestamped(rs)
    ensures AllTimestamped(out) && SortedByTimestamp(out)
    ensures |out| == |rs| && multiset(out) == multiset(rs)
  {
    if rs == [] then []
    else
      var init := rs[..|rs| - 1];
      assert rs == init + [Last(rs)];
      var sortedInit := SortByTimestamp(init);
      InsertKeepsSorted(Last(rs), sortedInit);
      InsertByTimestamp(Last(rs), sortedInit)
  }

  /**
   * Index `i` holds a latest reading: no timestamp is larger, and every later reading's
   * is smaller (on a tie the last one in input order is the latest).
   */
  predicate IsLatest(rs: seq<Record>, i: int)
    requires AllTimestamped(rs)
  {
    && 0 <= i < |rs|
    && (forall j :: 0 <= j < |rs| ==> Timestamp(rs[j]) <= Timestamp(rs[i]))
    && (forall j :: i < j < |rs| ==> Timestamp(rs[j]) < Timestamp(rs[i]))
  }

  /** The position of the latest reading, found by a scan independent of sorting. */
  function LatestIndex(rs: seq<Record>): (i: nat)
    requires AllTimestamped(rs) && |rs| > 0
    ensures IsLatest(rs, i)
  {
    if |rs| == 1 then 0
    else
      var k := LatestIndex(rs[..|rs| - 1]);
      if Timestamp(Last(rs)) >= Timestamp(rs[k]) then |rs| - 1 else k
  }

  /** `sorted(rs, key=...)[-1]` is the latest reading: the largest timestamp, the last one on a tie. */
  lemma {:induction false} SortedLastIsLatest(rs: seq<Record>)
    requires AllTimestamped(rs) && |rs| > 0
    ensures Last(SortByTimestamp(rs)) == rs[LatestIndex(rs)]
  {
    var init, x := rs[..|rs| - 1], Last(rs);
    var sortedInit := SortByTimestamp(init);
    assert SortByTimestamp(rs) == InsertByTimestamp(x, sortedInit);
    if init != [] {
      var k := LatestIndex(init);
      SortedLastIsLatest(init);
      assert Last(sortedInit) == init[k] == rs[k];
      InsertLast(x, sortedInit);
      assert LatestIndex(rs) == if Timestamp(x) >= Timestamp(rs[k]) then |rs| - 1 else k;
    }
  }

  /**
   * The rendered form of a reading: `timestamp` replaced by the rendering of its value and
   * `_id` removed; every other field as it was.
   */
  function Projected(v: Record, render: int -> string): (p: Record)
    requires HasIntTimestamp(v)
    ensures IdField !in p
    ensures TimestampField in p && p[TimestampField] == Str(render(Timestamp(v)))
    ensures forall k :: k != IdField && k != TimestampField ==> (k in p <==> k in v)
    ensures forall k :: k in p && k != TimestampField ==> p[k] == v[k]
  {
    (v - {IdField})[TimestampField := Str(render(Timestamp(v)))]
  }

  /**
   * What both endpoints compute from the store's contents: the projected latest temperature
   * reading, or the exception raised on the way. `render` stands for
   * `datetime.fromtimestamp(t).isoformat()`.
   */
  function LatestReading(store: seq<Record>, render: int -> string): (r: Result<Record, Error>)
    ensures r.Ok? ==> Find(store, Temperature) != [] && AllTimestamped(Find(store, Temperature))
    ensures r.Ok? ==> IdField !in r.value && TimestampField in r.value && r.value[TimestampField].Str?
    ensures r.Err? ==> r.error in {KeyError(TimestampField), TypeError, IndexError, KeyError(IdField)}
  {
    var found := Find(store, Temperature);
    // sorted() computes every key before it compares any two
    if exists k :: 0 <= k < |found| && TimestampField !in found[k] then Err(KeyError(TimestampField))
    // comparing, or fromtimestamp() on, a timestamp that is not a number
    else if !AllTimestamped(found) then Err(TypeError)
    // [-1] of an empty list
    else if found == [] then Err(IndexError)
    else
      var latest := Last(SortByTimestamp(found));
      if IdField !in latest then Err(KeyError(IdField))
      else Ok(Projected(latest, render))
  }

  /** Once every candidate has an integer timestamp, the outcome depends on the latest one alone. */
  lemma LatestReadingOfCandidates(store: seq<Record>, render: int -> string)
    requires Find(store, Temperature) != [] && AllTimestamped(Find(store, Temperature))
    ensures var found := Find(store, Temperature);
      var latest := found[LatestIndex(found)];
      LatestReading(store, render)
        == if IdField in latest then Ok(Projected(latest, render)) else Err(KeyError(IdField))
  {
    SortedLastIsLatest(Find(store, Temperature));
  }

  /** A reading is served exactly when there is a candidate, every candidate has an integer
      timestamp and the latest one carries an `_id`; it is the latest candidate, projected. */
  lemma LatestReadingOk(store: seq<Record>, render: int -> string)
    ensures var found := Find(store, Temperature);
      LatestReading(store, render).Ok? <==>
        found != [] && AllTimestamped(found) && IdField in found[LatestIndex(found)]
    ensures var found := Find(store, Temperature);
      LatestReading(store, render).Ok? ==>
        LatestReading(store, render).value == Projected(found[LatestIndex(found)], render)
  {
    var found := Find(store, Temperature);
    if found != [] && AllTimestamped(found) {
      LatestReadingOfCandidates(store, render);
    }
  }

  /** The error cases, each with the condition that raises it. */
  lemma LatestReadingErrors(store: seq<Record>, render: int -> string)
    ensures var found := Find(store, Temperature);
      LatestReading(store, render) == Err(KeyError(TimestampField)) <==>
        exists k :: 0 <= k < |found| && TimestampField !in found[k]
    ensures var found := Find(store, Temperature);
      LatestReading(store, render) == Err(TypeError) <==>
        (forall k :: 0 <= k < |found| ==> TimestampField in found[k]) && !AllTimestamped(found)
    ensures LatestReading(store, render) == Err(IndexError) <==> Find(store, Temperature) == []
    ensures var found := Find(store, Temperature);
      LatestReading(store, render) == Err(KeyError(IdField)) <==>
        found != [] && AllTimestamped(found) && IdField !in found[LatestIndex(found)]
  {
    var found := Find(store, Temperature);
    if exists k :: 0 <= k < |found| && TimestampField !in found[k] {
      var k :| 0 <= k < |found| && TimestampField !in found[k];
      assert LatestReading(store, render) == Err(KeyError(TimestampField));
      assert exists k :: 0 <= k < |Find(store, Temperature)| && TimestampField !in Find(store, Temperature)[k];
    } else if !AllTimestamped(found) {
      assert LatestReading(store, render) == Err(TypeError);
    } else if found == [] {
      assert LatestReading(store, render) == Err(IndexError);
    } else {
      LatestReadingOfCandidates(store, render);
      assert |IdField| != |TimestampField|;
    }
  }

  /** The latest candidate is a temperature reading of the store that no other one postdates. */
  lemma LatestCandidateIsNewest(store: seq<Record>)
    requires Find(store, Temperature) != [] && AllTimestamped(Find(store, Temperature))
    ensures var found := Find(store, Temperature);
      var r := found[LatestIndex(found)];
      && r in store && IsOfType(r, Temperature)
      && forall r' :: r' in store && IsOfType(r', Temperature) ==>
           HasIntTimestamp(r') && Timestamp(r') <= Timestamp(r)
  {
    var found := Find(store, Temperature);
    var i := LatestIndex(found);
    assert found[i] in found;
    forall r' | r' in store && IsOfType(r', Temperature)
      ensures HasIntTimestamp(r') && Timestamp(r') <= Timestamp(found[i])
    {
      assert r' in found;
      var j :| 0 <= j < |found| && found[j] == r';
    }
  }

  /** A served reading is a temperature reading of the store whose timestamp no other
      temperature reading exceeds, rendered and without `_id`. */
  lemma ServedReadingIsNewest(store: seq<Record>, render: int -> string)
    requires LatestReading(store, render).Ok?
    ensures var p := LatestReading(store, render).value;
      exists r :: r in store && IsOfType(r, Temperature) && HasIntTimestamp(r) && p == Projected(r, render)
        && forall r' :: r' in store && IsOfType(r', Temperature) ==>
             HasIntTimestamp(r') && Timestamp(r') <= Timestamp(r)
  {
    var found := Find(store, Temperature);
    LatestReadingOk(store, render);
    LatestCandidateIsNewest(store);
    var r := found[LatestIndex(found)];
    assert HasIntTimestamp(r);
  }

  lemma TimestampedAppend(rs: seq<Record>, x: Record)
    requires AllTimestamped(rs) && HasIntTimestamp(x)
    ensures AllTimestamped(rs + [x])
  {
    var out := rs + [x];
    forall k | 0 <= k < |out| ensures HasIntTimestamp(out[k]) {
      if k < |rs| {
        assert out[k] == rs[k];
      }
    }
  }

  /** A reading appended after every reading no later than it is the latest. */
  lemma AppendedNewestIsLatest(rs: seq<Record>, x: Record)
    requires AllTimestamped(rs) && HasIntTimestamp(x)
    requires forall k :: 0 <= k < |rs| ==> Timestamp(rs[k]) <= Timestamp(x)
    ensures AllTimestamped(rs + [x]) && LatestIndex(rs + [x]) == |rs|
  {
    TimestampedAppend(rs, x);
    var out := rs + [x];
    if rs != [] {
      assert out[..|out| - 1] == rs;
      assert Timestamp(rs[LatestIndex(rs)]) <= Timestamp(Last(out));
    }
  }

  /**
   * Storing a temperature reading that carries an `_id` and a timestamp no stored
   * temperature reading exceeds makes it the one both endpoints serve next.
   */
  lemma StoredNewestIsServed(store: seq<Record>, x: Record, render: int -> string)
    requires IsOfType(x, Temperature) && HasIntTimestamp(x) && IdField in x
    requires forall r :: r in store && IsOfType(r, Temperature) ==>
      HasIntTimestamp(r) && Timestamp(r) <= Timestamp(x)
    ensures LatestReading(store + [x], render) == Ok(Projected(x, render))
  {
    FindAppend(store, x, Temperature);
    var before := Find(store, Temperature);
    forall k | 0 <= k < |before| ensures HasIntTimestamp(before[k]) && Timestamp(before[k]) <= Timestamp(x) {
      assert before[k] in before;
    }
    AppendedNewestIsLatest(before, x);
    LatestReadingOfCandidates(store + [x], render);
  }

  /** A Python dict the endpoint mutates in place. */
  class Document {
    var fields: Record

    constructor (init: Record)
      ensures fields == init
    {
      fields := init;
    }

    /** `d[key] = v` */
    method SetItem(key: string, v: Value)
      modifies this
      ensures fields == old(fields)[key := v]
    {
      fields := fields[key := v];
    }

    /** `d.pop(key)` without a default: KeyError when the key is missing. */
    method Pop(key: string) returns (r: Result<Value, Error>)
      modifies this
      ensures key in old(fields) ==> r == Ok(old(fields)[key]) && fields == old(fields) - {key}
      ensures key !in old(fields) ==> r == Err(KeyError(key)) && fields == old(fields)
    {
      if key in fields {
        r := Ok(fields[key]);
        fields := fields - {key};
      } else {
        r := Err(KeyError(key));
      }
    }
  }

  /** Lines `value['timestamp'] = ...` and `value.pop("_id")`, on the selected dict. */
  method RenderInPlace(value: Document, render: int -> string) returns (r: Result<Value, Error>)
    requires HasIntTimestamp(value.fields)
    modifies value
    ensures IdField in old(value.fields) ==>
      r == Ok(old(value.fields)[IdField]) && value.fields == Projected(old(value.fields), render)
    ensures IdField !in old(value.fields) ==>
      && r == Err(KeyError(IdField))
      && value.fields == old(value.fields)[TimestampField := Str(render(Timestamp(old(value.fields))))]
  {
    var isoTime := render(Timestamp(value.fields));
    value.SetItem(TimestampField, Str(isoTime));
    r := value.Pop(IdField);
  }

  /** The body shared by both endpoints. */
  method FetchLatest(store: seq<Record>, render: int -> string) returns (r: Result<Record, Error>)
    ensures r == LatestReading(store, render)
  {
    var valuesAux := Find(store, Temperature);
    if exists k :: 0 <= k < |valuesAux| && TimestampField !in valuesAux[k] {
      return Err(KeyError(TimestampField));
    }
    if !AllTimestamped(valuesAux) {
      return Err(TypeError);
    }
    if valuesAux == [] {
      return Err(IndexError);
    }
    var value := new Document(Last(SortByTimestamp(valuesAux)));
    var popped := RenderInPlace(value, render);
    if popped.Err? {
      return Err(popped.error);
    }
    r := Ok(value.fields);
  }

  /** The `/` route: the value handed to the template. */
  method Index(store: seq<Record>, render: int -> string) returns (r: Result<Record, Error>)
    ensures r == LatestReading(store, render)
  {
    r := FetchLatest(store, render);
  }

  /** The `/update_doc` route: the value returned as the response. */
  method UpdateDoc(store: seq<Record>, render: int -> string) returns (r: Result<Record, Error>)
    ensures r == LatestReading(store, render)
  {
    r := FetchLatest(store, render);
  }
}
