/** The figures computed from the request records once the page is done:
    `totalSize`, `grouped` (the `resourceTypes` of the result) and
    `resourceCount`. */
module Aggregation {
  import opened Wrappers
  import opened JsNumber
  import opened NetworkTracker

  /** `resources.reduce((acc, r) => acc + (r.sizeKB || 0), 0)`, in
      hundredths of a kilobyte (a record's size is never `NaN`, so `|| 0`
      changes nothing). */
  function TotalSize(rs: seq<RequestRecord>): int {
    if |rs| == 0 then 0 else TotalSize(rs[..|rs| - 1]) + rs[|rs| - 1].sizeKB
  }

  /** The `grouped` reduce: for each resource type, how many records have it. */
  function Grouped(rs: seq<RequestRecord>): map<string, nat> {
    if |rs| == 0 then map[]
    else
      var acc := Grouped(rs[..|rs| - 1]);
      var t := rs[|rs| - 1].resourceType;
      acc[t := (if t in acc then acc[t] else 0) + 1]
  }

  /** The aggregate part of the measurement result. */
  datatype Summary = Summary(totalSizeKB: int, resourceCount: nat, resourceTypes: map<string, nat>)

  function Summarize(rs: seq<RequestRecord>): Summary {
    Summary(TotalSize(rs), |rs|, Grouped(rs))
  }

  /** The number of records of type `t`, counted from the front. */
  function CountOfType(rs: seq<RequestRecord>, t: string): nat {
    if |rs| == 0 then 0 else (if rs[0].resourceType == t then 1 else 0) + CountOfType(rs[1..], t)
  }

  lemma {:induction false} CountOfTypeAbsent(rs: seq<RequestRecord>, t: string)
    requires forall i :: 0 <= i < |rs| ==> rs[i].resourceType != t
    ensures CountOfType(rs, t) == 0
  {
    if |rs| > 0 {
      CountOfTypeAbsent(rs[1..], t);
    }
  }

  lemma {:induction false} CountOfTypeAppend(rs: seq<RequestRecord>, r: RequestRecord, t: string)
    ensures CountOfType(rs + [r], t) == CountOfType(rs, t) + (if r.resourceType == t then 1 else 0)
  {
    if |rs| > 0 {
      CountOfTypeAppend(rs[1..], r, t);
      assert (rs + [r])[1..] == rs[1..] + [r];
    }
  }

  /** `grouped` has a key for exactly the types that occur, and each key
      counts the records of that type. */
  lemma {:induction false} GroupedCounts(rs: seq<RequestRecord>)
    ensures forall t :: t in Grouped(rs) <==> exists i :: 0 <= i < |rs| && rs[i].resourceType == t
    ensures forall t :: t in Grouped(rs) ==> Grouped(rs)[t] == CountOfType(rs, t)
  {
    if |rs| > 0 {
      var init := rs[..|rs| - 1];
      var last := rs[|rs| - 1];
      GroupedCounts(init);
      assert rs == init + [last];
      forall t ensures CountOfType(rs, t) == CountOfType(init, t) + (if last.resourceType == t then 1 else 0) {
        CountOfTypeAppend(init, last, t);
      }
      forall t | exists i :: 0 <= i < |rs| && rs[i].resourceType == t ensures t in Grouped(rs) {
        var i :| 0 <= i < |rs| && rs[i].resourceType == t;
        if i < |init| { assert init[i].resourceType == t; }
      }
      if last.resourceType !in Grouped(init) {
        CountOfTypeAbsent(init, last.resourceType);
      }
      forall t | t in Grouped(init) ensures exists i :: 0 <= i < |rs| && rs[i].resourceType == t {
        var i :| 0 <= i < |init| && init[i].resourceType == t;
        assert rs[i].resourceType == t;
      }
    }
  }

  /** The sum of the values of `m` at `keys`. */
  ghost function SumOver(m: map<string, nat>, keys: set<string>): nat
    requires keys <= m.Keys
    decreases keys
  {
    if keys == {} then 0
    else
      var k :| k in keys;
      m[k] + SumOver(m, keys - {k})
  }

  /** The sum of the values of a map. */
  ghost function SumValues(m: map<string, nat>): nat {
    SumOver(m, m.Keys)
  }

  lemma {:induction false} SumOverRemove(m: map<string, nat>, keys: set<string>, k: string)
    requires keys <= m.Keys && k in keys
    ensures SumOver(m, keys) == m[k] + SumOver(m, keys - {k})
    decreases keys
  {
    var j :| j in keys && SumOver(m, keys) == m[j] + SumOver(m, keys - {j});
    if j != k {
      SumOverRemove(m, keys - {j}, k);
      SumOverRemove(m, keys - {k}, j);
      assert (keys - {j}) - {k} == (keys - {k}) - {j};
    }
  }

  /** Two maps that agree on `keys` have the same sum over them. */
  lemma {:induction false} SumOverAgree(m: map<string, nat>, m': map<string, nat>, keys: set<string>)
    requires keys <= m.Keys && keys <= m'.Keys
    requires forall k :: k in keys ==> m[k] == m'[k]
    ensures SumOver(m, keys) == SumOver(m', keys)
    decreases keys
  {
    if keys != {} {
      var k :| k in keys && SumOver(m, keys) == m[k] + SumOver(m, keys - {k});
      SumOverRemove(m', keys, k);
      SumOverAgree(m, m', keys - {k});
    }
  }

  lemma SumValuesUpdate(m: map<string, nat>, k: string, v: nat)
    ensures SumValues(m[k := v]) == SumValues(m) - (if k in m then m[k] else 0) + v
  {
    var m' := m[k := v];
    var rest := m.Keys - {k};
    SumOverRemove(m', m'.Keys, k);
    assert m'.Keys - {k} == rest;
    SumOverAgree(m, m', rest);
    if k in m {
      SumOverRemove(m, m.Keys, k);
    } else {
      assert m.Keys == rest;
    }
  }

  /** The per-type counts add up to the number of records. */
  lemma {:induction false} GroupedSumIsCount(rs: seq<RequestRecord>)
    ensures SumValues(Grouped(rs)) == |rs|
  {
    if |rs| > 0 {
      var init := rs[..|rs| - 1];
      var t := rs[|rs| - 1].resourceType;
      var acc := Grouped(init);
      GroupedSumIsCount(init);
      SumValuesUpdate(acc, t, (if t in acc then acc[t] else 0) + 1);
    }
  }

  /** The summary's count is the number of records, its per-type counts add
      up to that number, and its total is the sum of the record sizes. */
  lemma SummaryConsistent(rs: seq<RequestRecord>)
    ensures Summarize(rs).resourceCount == |rs|
    ensures SumValues(Summarize(rs).resourceTypes) == Summarize(rs).resourceCount
    ensures Summarize(rs).totalSizeKB == SumOfSizes(rs)
  {
    GroupedSumIsCount(rs);
    TotalSizeIsSumOfSizes(rs);
  }

  /** The sum of the record sizes, added up from the front. */
  function SumOfSizes(rs: seq<RequestRecord>): int {
    if |rs| == 0 then 0 else rs[0].sizeKB + SumOfSizes(rs[1..])
  }

  /** The `reduce` from the left adds up every record's size once. */
  lemma {:induction false} TotalSizeIsSumOfSizes(rs: seq<RequestRecord>)
    ensures TotalSize(rs) == SumOfSizes(rs)
  {
    if |rs| > 0 {
      TotalSizeIsSumOfSizes(rs[1..]);
      TotalSizeConcat([rs[0]], rs[1..]);
      assert [rs[0]] + rs[1..] == rs;
    }
  }

  lemma {:induction false} TotalSizeConcat(a: seq<RequestRecord>, b: seq<RequestRecord>)
    ensures TotalSize(a + b) == TotalSize(a) + TotalSize(b)
    decreases |b|
  {
    if |b| > 0 {
      TotalSizeConcat(a, b[..|b| - 1]);
      assert (a + b)[..|a + b| - 1] == a + b[..|b| - 1];
    } else {
      assert a + b == a;
    }
  }

  /** Replacing one record changes the total by the change in that record's size. */
  lemma TotalSizeUpdate(rs: seq<RequestRecord>, i: nat, r: RequestRecord)
    requires i < |rs|
    ensures TotalSize(rs[i := r]) == TotalSize(rs) - rs[i].sizeKB + r.sizeKB
  {
    var before, after := rs[..i], rs[i + 1..];
    assert rs == before + [rs[i]] + after;
    assert rs[i := r] == before + [r] + after;
    TotalSizeConcat(before + [rs[i]], after);
    TotalSizeConcat(before + [r], after);
    TotalSizeConcat(before, [rs[i]]);
    TotalSizeConcat(before, [r]);
  }

  /** A `request` event leaves the total as it was; a `requestfinished`
      event adds the Content-Length of the request it completes, and nothing
      when it completes none. */
  lemma TotalSizeAfterEvents(rs: seq<RequestRecord>, url: string, resourceType: string, response: Option<Headers>, now: int)
    requires WellFormed(rs)
    ensures TotalSize(AfterRequest(rs, url, resourceType, now)) == TotalSize(rs)
    ensures TotalSize(AfterFinished(rs, url, response, now)) ==
      TotalSize(rs) + (if FirstPending(rs, url).Some? && response.Some?
                       then KBHundredths(ContentLength(response.value)) else 0)
  {
    TotalSizeConcat(rs, [NewRecord(url, resourceType, now)]);
    match FirstPending(rs, url)
    case None =>
    case Some(i) =>
      if response.Some? {
        TotalSizeUpdate(rs, i, Completed(rs[i], response.value, now));
      }
  }
}
