/** The bookkeeping of one measurement seen as the sequence of events the
    browser delivers to the three handlers. */
module Measurement {
  import opened Wrappers
  import opened NetworkTracker
  import opened ContentCapture
  import opened Aggregation

  datatype PageEvent =
    | Request(url: string, resourceType: string, now: int)
    | RequestFinished(url: string, response: Option<Headers>, now: int)
    | ResponseReceived(received: Response)

  /** The `resources` array after the events. */
  function Records(events: seq<PageEvent>): seq<RequestRecord> {
    if |events| == 0 then []
    else
      var rs := Records(events[..|events| - 1]);
      match events[|events| - 1]
      case Request(url, resourceType, now) => AfterRequest(rs, url, resourceType, now)
      case RequestFinished(url, response, now) => AfterFinished(rs, url, response, now)
      case ResponseReceived(_) => rs
  }

  /** The responses among the events, in order. */
  function Responses(events: seq<PageEvent>): seq<Response> {
    if |events| == 0 then []
    else
      var rs := Responses(events[..|events| - 1]);
      match events[|events| - 1]
      case ResponseReceived(r) => rs + [r]
      case _ => rs
  }

  /** `resourceMap` after the events. */
  function Captures(events: seq<PageEvent>): map<string, CapturedResource> {
    ReplayResponses(Responses(events))
  }

  /** The map after any events has one entry per distinct URL among the
      stored responses, built from the last of them; skipped responses and
      the other two kinds of event leave no trace in it. */
  lemma CapturesAreLastWrites(events: seq<PageEvent>, url: string)
    ensures Captures(events).Keys == StoredUrls(Responses(events))
    ensures match LastStored(Responses(events), url)
      case None => url !in Captures(events)
      case Some(i) => url in Captures(events) && Captures(events)[url] == CaptureOf(Responses(events)[i])
  {
    ReplayKeys(Responses(events));
    ReplayIsLastWrite(Responses(events), url);
  }

  function RequestCount(events: seq<PageEvent>): nat {
    if |events| == 0 then 0
    else RequestCount(events[..|events| - 1]) + (if events[|events| - 1].Request? then 1 else 0)
  }

  /** Every record is pending with no size and duration, or completed with
      `duration == endTime - startTime`, whatever the events. */
  lemma {:induction false} RecordsWellFormed(events: seq<PageEvent>)
    ensures WellFormed(Records(events))
  {
    if |events| > 0 {
      var init := events[..|events| - 1];
      RecordsWellFormed(init);
      match events[|events| - 1]
      case Request(url, resourceType, now) =>
      case RequestFinished(url, response, now) =>
        FinishedKeepsWellFormed(Records(init), url, response, now);
      case ResponseReceived(_) =>
    }
  }

  /** `resourceCount` is the number of `request` events, however many
      responses were captured, and `grouped` splits exactly that many. */
  lemma {:induction false} ResourceCountIsRequestCount(events: seq<PageEvent>)
    ensures Summarize(Records(events)).resourceCount == RequestCount(events)
    ensures SumValues(Summarize(Records(events)).resourceTypes) == RequestCount(events)
  {
    if |events| > 0 {
      ResourceCountIsRequestCount(events[..|events| - 1]);
    }
    SummaryConsistent(Records(events));
  }

  /** Events only ever add records at the end, and a record keeps the URL,
      resource type and start time of its request for good. */
  lemma {:induction false} RecordsGrow(events: seq<PageEvent>, more: seq<PageEvent>)
    ensures |Records(events)| <= |Records(events + more)|
    ensures forall i :: 0 <= i < |Records(events)| ==>
      Records(events + more)[i].url == Records(events)[i].url &&
      Records(events + more)[i].resourceType == Records(events)[i].resourceType &&
      Records(events + more)[i].startTime == Records(events)[i].startTime
    decreases |more|
  {
    if |more| > 0 {
      var init := more[..|more| - 1];
      RecordsGrow(events, init);
      assert (events + more)[..|events + more| - 1] == events + init;
      var before := Records(events + init);
      var after := Records(events + more);
      forall i | 0 <= i < |before|
        ensures after[i].url == before[i].url && after[i].resourceType == before[i].resourceType &&
          after[i].startTime == before[i].startTime
      {
      }
    } else {
      assert events + more == events;
    }
  }

  /** Set once: a record that has been completed is never changed by any
      later events. */
  lemma {:induction false} CompletedRecordsAreFinal(events: seq<PageEvent>, more: seq<PageEvent>, i: nat)
    requires i < |Records(events)| && Records(events)[i].endTime.Some?
    ensures i < |Records(events + more)| && Records(events + more)[i] == Records(events)[i]
    decreases |more|
  {
    if |more| > 0 {
      var init := more[..|more| - 1];
      CompletedRecordsAreFinal(events, init, i);
      assert (events + more)[..|events + more| - 1] == events + init;
      var rs := Records(events + init);
      match more[|more| - 1]
      case Request(url, resourceType, now) =>
      case RequestFinished(url, response, now) =>
        FinishedSetOnce(rs, url, response, now);
      case ResponseReceived(_) =>
    } else {
      assert events + more == events;
    }
  }
}
