/** The `resources` array of a measurement: one record per `request` event,
    completed by the matching `requestfinished` event. */
module NetworkTracker {
  import opened Wrappers
  import opened JsNumber

  /** Response headers, keyed by lower-case header name. */
  type Headers = map<string, string>

  /** One tracked request. `sizeKB` is the Content-Length in hundredths of a
      kilobyte; times are the millisecond clock readings of the events. */
  datatype RequestRecord = RequestRecord(
    url: string,
    resourceType: string,
    startTime: int,
    endTime: Option<int>,
    sizeKB: int,
    duration: int)

  /** A record the `requestfinished` handler may select for `url`. */
  predicate IsPending(r: RequestRecord, url: string) {
    r.url == url && r.endTime.None?
  }

  /** `resources.find(r => r.url === url && r.endTime === null)`, as an index. */
  function FirstPending(rs: seq<RequestRecord>, url: string): (r: Option<nat>)
    ensures r.Some? ==> r.value < |rs| && IsPending(rs[r.value], url)
    ensures r.Some? ==> forall j :: 0 <= j < r.value ==> !IsPending(rs[j], url)
    ensures r.None? ==> forall j :: 0 <= j < |rs| ==> !IsPending(rs[j], url)
  {
    if |rs| == 0 then None
    else if IsPending(rs[0], url) then Some(0)
    else match FirstPending(rs[1..], url)
      case None => None
      case Some(k) => Some(k + 1)
  }

  /** `Number.parseInt(headers["content-length"]) || 0`, in bytes. A missing
      header reads as `parseInt(undefined)`, which is `NaN`, hence 0. */
  function ContentLength(headers: Headers): int {
    if "content-length" in headers then ParseIntOrZero(headers["content-length"]) else 0
  }

  /** The record a request starts with. */
  function NewRecord(url: string, resourceType: string, now: int): RequestRecord {
    RequestRecord(url, resourceType, now, None, 0, 0)
  }

  /** The record once its request has finished at `now`. */
  function Completed(r: RequestRecord, headers: Headers, now: int): RequestRecord {
    r.(endTime := Some(now), sizeKB := KBHundredths(ContentLength(headers)), duration := now - r.startTime)
  }

  /** The records after a `request` event. */
  function AfterRequest(rs: seq<RequestRecord>, url: string, resourceType: string, now: int): seq<RequestRecord> {
    rs + [NewRecord(url, resourceType, now)]
  }

  /** The records after a `requestfinished` event for `url` at `now`;
      `response` is `None` when the request has no response. */
  function AfterFinished(rs: seq<RequestRecord>, url: string, response: Option<Headers>, now: int): seq<RequestRecord> {
    match FirstPending(rs, url)
    case None => rs
    case Some(i) =>
      match response
      case None => rs
      case Some(headers) => rs[i := Completed(rs[i], headers, now)]
  }

  /** A pending record has no size and no duration yet; a completed one has
      the duration from its start to its end. */
  predicate RecordWellFormed(r: RequestRecord) {
    match r.endTime
    case None => r.sizeKB == 0 && r.duration == 0
    case Some(t) => r.duration == t - r.startTime
  }

  predicate WellFormed(rs: seq<RequestRecord>) {
    forall i :: 0 <= i < |rs| ==> RecordWellFormed(rs[i])
  }

  class RequestTracker {
    /** The `resources` array. */
    var records: seq<RequestRecord>

    ghost predicate Valid()
      reads this
    {
      WellFormed(records)
    }

    constructor ()
      ensures Valid() && records == []
    {
      records := [];
    }

    /** The `request` handler. */
    method OnRequest(url: string, resourceType: string, now: int)
      requires Valid()
      modifies this
      ensures Valid()
      ensures records == AfterRequest(old(records), url, resourceType, now)
    {
      records := records + [RequestRecord(url, resourceType, now, None, 0, 0)];
    }

    /** The linear scan of `resources.find`. */
    method FindPending(url: string) returns (found: Option<nat>)
      ensures found == FirstPending(records, url)
    {
      var i := 0;
      while i < |records|
        invariant 0 <= i <= |records|
        invariant forall j :: 0 <= j < i ==> !IsPending(records[j], url)
      {
        if records[i].url == url && records[i].endTime == None {
          FirstPendingIs(records, url, i);
          return Some(i);
        }
        i := i + 1;
      }
      FirstPendingNone(records, url);
      return None;
    }

    /** The `requestfinished` handler. */
    method OnRequestFinished(url: string, response: Option<Headers>, now: int)
      requires Valid()
      modifies this
      ensures Valid()
      ensures records == AfterFinished(old(records), url, response, now)
    {
      var found := FindPending(url);
      if found.None? {
        return;
      }
      if response.None? {
        return;
      }
      var i := found.value;
      var size := ContentLength(response.value);
      var r := records[i];
      records := records[i := r.(endTime := Some(now), sizeKB := KBHundredths(size), duration := now - r.startTime)];
      FinishedKeepsWellFormed(old(records), url, response, now);
    }
  }

  lemma {:induction false} FirstPendingIs(rs: seq<RequestRecord>, url: string, i: nat)
    requires i < |rs| && IsPending(rs[i], url)
    requires forall j :: 0 <= j < i ==> !IsPending(rs[j], url)
    ensures FirstPending(rs, url) == Some(i)
  {
    if i > 0 {
      FirstPendingIs(rs[1..], url, i - 1);
    }
  }

  lemma FirstPendingNone(rs: seq<RequestRecord>, url: string)
    requires forall j :: 0 <= j < |rs| ==> !IsPending(rs[j], url)
    ensures FirstPending(rs, url) == None
  {
  }

  /** A `request` event appends exactly one pending record, with no size and
      no duration, and leaves the earlier records as they were. */
  lemma RequestAppendsOne(rs: seq<RequestRecord>, url: string, resourceType: string, now: int)
    ensures var r := AfterRequest(rs, url, resourceType, now);
      |r| == |rs| + 1 && r[..|rs|] == rs &&
      r[|rs|].url == url && r[|rs|].resourceType == resourceType && r[|rs|].startTime == now &&
      r[|rs|].endTime == None && r[|rs|].sizeKB == 0 && r[|rs|].duration == 0
  {
  }

  /** A `requestfinished` event changes at most one record, and only the
      first pending one for its URL, and only when there is a response. */
  lemma FinishedChangesOnlyFirstPending(rs: seq<RequestRecord>, url: string, response: Option<Headers>, now: int)
    ensures |AfterFinished(rs, url, response, now)| == |rs|
    ensures forall j :: 0 <= j < |rs| && AfterFinished(rs, url, response, now)[j] != rs[j] ==>
      response.Some? && FirstPending(rs, url) == Some(j)
  {
  }

  /** With no pending record for the URL, or with no response, the event
      changes nothing. */
  lemma FinishedNoOp(rs: seq<RequestRecord>, url: string, response: Option<Headers>, now: int)
    requires response.None? || forall j :: 0 <= j < |rs| ==> !IsPending(rs[j], url)
    ensures AfterFinished(rs, url, response, now) == rs
  {
    if response.Some? {
      FirstPendingNone(rs, url);
    }
  }

  /** The record a `requestfinished` event completes gets the event's time
      as `endTime`, the time since its start as `duration` and the
      Content-Length (0 when missing or not numeric) as its size; its URL,
      type and start time are kept. */
  lemma FinishedCompletes(rs: seq<RequestRecord>, url: string, headers: Headers, now: int, i: nat)
    requires FirstPending(rs, url) == Some(i)
    ensures var r := AfterFinished(rs, url, Some(headers), now)[i];
      r.endTime == Some(now) && r.duration == now - rs[i].startTime &&
      r.sizeKB == KBHundredths(ContentLength(headers)) &&
      r.url == url && r.resourceType == rs[i].resourceType && r.startTime == rs[i].startTime
  {
  }

  /** `endTime` is set at most once: a completed record is never selected
      again, so no later event changes it. */
  lemma FinishedSetOnce(rs: seq<RequestRecord>, url: string, response: Option<Headers>, now: int)
    ensures forall j :: 0 <= j < |rs| && rs[j].endTime.Some? ==> AfterFinished(rs, url, response, now)[j] == rs[j]
  {
    FinishedChangesOnlyFirstPending(rs, url, response, now);
  }

  lemma FinishedKeepsWellFormed(rs: seq<RequestRecord>, url: string, response: Option<Headers>, now: int)
    requires WellFormed(rs)
    ensures WellFormed(AfterFinished(rs, url, response, now))
  {
  }

  /** A Content-Length header holding the decimal numeral of `n` gives a
      size of `n` bytes; a missing header gives 0. */
  lemma ContentLengthDecimal(headers: Headers, n: nat)
    ensures "content-length" !in headers ==> ContentLength(headers) == 0
    ensures "content-length" in headers && headers["content-length"] == Decimal(n) ==> ContentLength(headers) == n
  {
    ParseIntDecimal(n);
  }
}
