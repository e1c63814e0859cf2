/** The `response` handler: which responses are kept in `resourceMap`,
    under what name and class, and how much of their body. */
module ContentCapture {
  import opened Wrappers
  import opened JsText
  import opened JsNumber
  import opened FileType
  import opened NetworkTracker

  newtype byte = x: int | 0 <= x < 256

  /** The cap on the number of body bytes kept. */
  const MaxContentBytes: nat := 100000

  /** A `response` event: its URL, its headers and its body; the body is
      `None` when `response.buffer()` throws (the error is logged and the
      response skipped). */
  datatype Response = Response(url: string, headers: Headers, body: Option<seq<byte>>)

  /** One value of `resourceMap`. `sizeKB` is the full body length in
      hundredths of a kilobyte. */
  datatype CapturedResource = CapturedResource(
    name: string,
    fileType: string,
    content: seq<byte>,
    sizeKB: int,
    contentType: string,
    url: string)

  function Min(a: int, b: int): int { if a <= b then a else b }

  /** `response.headers()["content-type"] || ""`. */
  function ContentTypeOf(headers: Headers): string {
    if "content-type" in headers then headers["content-type"] else ""
  }

  /** The main document and source maps are not captured; both tests are
      substring tests. */
  predicate IsSkipped(url: string, contentType: string) {
    Includes(contentType, "text/html") || Includes(url, ".map")
  }

  /** The responses that end up in the map. */
  predicate Stored(r: Response) {
    !IsSkipped(r.url, ContentTypeOf(r.headers)) && r.body.Some?
  }

  /** `url.split("/").pop() || "desconocido"`. */
  function FileNameOf(url: string): (name: string)
    ensures |name| > 0
    ensures (url == "" || url[|url| - 1] == '/') ==> name == "desconocido"
    ensures !(url == "" || url[|url| - 1] == '/') ==> name == LastSegment(url, '/')
  {
    var segment := LastSegment(url, '/');
    if segment == "" then "desconocido" else segment
  }

  /** The kept part of the body: its first `min(100000, len)` bytes when the
      content type is allow-listed, nothing otherwise. */
  function CapturedContent(contentType: string, body: seq<byte>): (content: seq<byte>)
    ensures content <= body
    ensures |content| <= MaxContentBytes
    ensures ShouldCaptureContent(contentType) ==> |content| == Min(MaxContentBytes, |body|)
    ensures !ShouldCaptureContent(contentType) ==> content == []
  {
    if ShouldCaptureContent(contentType) then body[..Min(MaxContentBytes, |body|)] else []
  }

  /** The entry stored for a response that passes the filter. */
  function CaptureOf(r: Response): CapturedResource
    requires Stored(r)
  {
    var contentType := ContentTypeOf(r.headers);
    var name := FileNameOf(r.url);
    CapturedResource(name, GetFileType(contentType, name), CapturedContent(contentType, r.body.value),
                     KBHundredths(|r.body.value|), contentType, r.url)
  }

  /** The map after one `response` event: overwritten at the response's URL
      when it is stored, unchanged otherwise. */
  function AfterResponse(entries: map<string, CapturedResource>, r: Response): map<string, CapturedResource> {
    if Stored(r) then entries[r.url := CaptureOf(r)] else entries
  }

  /** One `response` event touches at most the entry of its own URL: a
      skipped response (HTML document, source map) or one whose body cannot
      be read leaves the map as it was, and a stored one adds or replaces
      exactly its URL's entry. */
  lemma AfterResponseFrame(entries: map<string, CapturedResource>, r: Response)
    ensures (IsSkipped(r.url, ContentTypeOf(r.headers)) || r.body.None?) ==> AfterResponse(entries, r) == entries
    ensures Stored(r) ==>
      AfterResponse(entries, r).Keys == entries.Keys + {r.url} && AfterResponse(entries, r)[r.url] == CaptureOf(r)
    ensures forall u :: u in entries && u != r.url ==> u in AfterResponse(entries, r) && AfterResponse(entries, r)[u] == entries[u]
  {
  }

  /** Responses for different URLs can arrive in either order: the map
      that results is the same. */
  lemma AfterResponseCommutes(entries: map<string, CapturedResource>, a: Response, b: Response)
    requires a.url != b.url
    ensures AfterResponse(AfterResponse(entries, a), b) == AfterResponse(AfterResponse(entries, b), a)
  {
    if Stored(a) && Stored(b) {
      UpdatesCommute(entries, a.url, CaptureOf(a), b.url, CaptureOf(b));
    }
  }

  lemma UpdatesCommute<V>(m: map<string, V>, k1: string, v1: V, k2: string, v2: V)
    requires k1 != k2
    ensures m[k1 := v1][k2 := v2] == m[k2 := v2][k1 := v1]
  {
  }

  /** What a stored entry says about its response: its key, its size from
      the full body, its content a prefix of at most 100000 bytes that is
      empty unless the content type is allow-listed, and its class. */
  lemma CaptureOfFields(r: Response)
    requires Stored(r)
    ensures var c := CaptureOf(r); var b := r.body.value;
      c.url == r.url && c.contentType == ContentTypeOf(r.headers) &&
      c.sizeKB == KBHundredths(|b|) &&
      c.content <= b && |c.content| <= MaxContentBytes &&
      (ShouldCaptureContent(c.contentType) ==> |c.content| == Min(MaxContentBytes, |b|)) &&
      (!ShouldCaptureContent(c.contentType) ==> c.content == []) &&
      c.fileType in FileClasses && c.name != ""
  {
    var contentType := ContentTypeOf(r.headers);
    var name := FileNameOf(r.url);
    GetFileTypeIsAClass(contentType, name);
    assert CaptureOf(r).fileType == GetFileType(contentType, name);
    assert CaptureOf(r).content == CapturedContent(contentType, r.body.value);
  }

  /** `resourceMap`: a JavaScript `Map`, whose keys iterate in the order
      they were first set. */
  class ResourceMap {
    var entries: map<string, CapturedResource>
    var order: seq<string>

    ghost predicate Valid()
      reads this
    {
      (forall i, j :: 0 <= i < j < |order| ==> order[i] != order[j]) &&
      (forall u :: u in entries <==> u in order)
    }

    constructor ()
      ensures Valid() && entries == map[] && order == []
    {
      entries := map[];
      order := [];
    }

    /** `resourceMap.set(url, value)`: a new key goes last, an existing key
        keeps its place and gets the new value. */
    method Set(url: string, value: CapturedResource)
      requires Valid()
      modifies this
      ensures Valid()
      ensures entries == old(entries)[url := value]
      ensures order == if url in old(entries) then old(order) else old(order) + [url]
    {
      if url !in entries {
        order := order + [url];
      }
      entries := entries[url := value];
    }

    /** The `response` handler. */
    method OnResponse(r: Response)
      requires Valid()
      modifies this
      ensures Valid()
      ensures entries == AfterResponse(old(entries), r)
      ensures order == if Stored(r) && r.url !in old(entries) then old(order) + [r.url] else old(order)
    {
      var contentType := ContentTypeOf(r.headers);
      var isHtml := Includes(contentType, "text/html");
      var isSourceMap := Includes(r.url, ".map");
      if !isHtml && !isSourceMap {
        match r.body
        case None =>
          assert !Stored(r);
        case Some(buffer) =>
          assert Stored(r);
          var fileName := FileNameOf(r.url);
          var fileType := GetFileType(contentType, fileName);
          var fileContent: seq<byte> := [];
          if ShouldCaptureContent(contentType) {
            fileContent := buffer[..Min(MaxContentBytes, |buffer|)];
          }
          var value := CapturedResource(fileName, fileType, fileContent, KBHundredths(|buffer|), contentType, r.url);
          assert value == CaptureOf(r);
          Set(r.url, value);
      } else {
        assert !Stored(r);
      }
    }

    /** `Array.from(resourceMap.values())`, in key order. */
    function Values(): (vs: seq<CapturedResource>)
      reads this
      requires Valid()
      ensures |vs| == |order| == |entries|
      ensures forall i :: 0 <= i < |order| ==> vs[i] == entries[order[i]]
    {
      DistinctKeysCount(order, entries.Keys);
      assert forall i :: 0 <= i < |order| ==> order[i] in entries;
      seq(|order|, i requires 0 <= i < |order| && order[i] in entries reads this => entries[order[i]])
    }
  }

  /** A duplicate-free list of exactly the keys of a map is as long as the
      map has entries. */
  lemma {:induction false} DistinctKeysCount(order: seq<string>, keys: set<string>)
    requires forall i, j :: 0 <= i < j < |order| ==> order[i] != order[j]
    requires forall u :: u in keys <==> u in order
    ensures |keys| == |order|
  {
    if |order| > 0 {
      var last := order[|order| - 1];
      var init := order[..|order| - 1];
      assert last !in init;
      forall u ensures u in keys - {last} <==> u in init {
        if u in order && u != last {
          var i :| 0 <= i < |order| && order[i] == u;
          assert init[i] == u;
        }
      }
      DistinctKeysCount(init, keys - {last});
    }
  }

  /** The map after a sequence of `response` events, from an empty map. */
  function ReplayResponses(rs: seq<Response>): map<string, CapturedResource> {
    if |rs| == 0 then map[] else AfterResponse(ReplayResponses(rs[..|rs| - 1]), rs[|rs| - 1])
  }

  /** The index of the last stored response for `url`. */
  function LastStored(rs: seq<Response>, url: string): (r: Option<nat>)
    ensures r.Some? ==> r.value < |rs| && Stored(rs[r.value]) && rs[r.value].url == url
    ensures r.Some? ==> forall j :: r.value < j < |rs| ==> !(Stored(rs[j]) && rs[j].url == url)
    ensures r.None? ==> forall j :: 0 <= j < |rs| ==> !(Stored(rs[j]) && rs[j].url == url)
  {
    if |rs| == 0 then None
    else if Stored(rs[|rs| - 1]) && rs[|rs| - 1].url == url then Some(|rs| - 1)
    else LastStored(rs[..|rs| - 1], url)
  }

  /** Last write wins: after any sequence of responses, a URL has an entry
      exactly when some response for it was stored, and the entry is the
      one built from the last such response. */
  lemma {:induction false} ReplayIsLastWrite(rs: seq<Response>, url: string)
    ensures match LastStored(rs, url)
      case None => url !in ReplayResponses(rs)
      case Some(i) => url in ReplayResponses(rs) && ReplayResponses(rs)[url] == CaptureOf(rs[i])
  {
    if |rs| > 0 {
      var init := rs[..|rs| - 1];
      var last := rs[|rs| - 1];
      ReplayIsLastWrite(init, url);
      assert ReplayResponses(rs) == AfterResponse(ReplayResponses(init), last);
      if !(Stored(last) && last.url == url) {
        assert LastStored(rs, url) == LastStored(init, url);
        assert url in ReplayResponses(rs) <==> url in ReplayResponses(init);
        if url in ReplayResponses(rs) {
          assert ReplayResponses(rs)[url] == ReplayResponses(init)[url];
        }
        match LastStored(init, url)
        case None =>
        case Some(i) => assert rs[i] == init[i];
      }
    }
  }

  /** The URLs of the stored responses. */
  function StoredUrls(rs: seq<Response>): set<string> {
    set i | 0 <= i < |rs| && Stored(rs[i]) :: rs[i].url
  }

  /** The map has one entry per distinct URL among the stored responses,
      and so never more entries than stored responses. */
  lemma ReplayKeys(rs: seq<Response>)
    ensures ReplayResponses(rs).Keys == StoredUrls(rs)
  {
    forall u | u in ReplayResponses(rs) ensures u in StoredUrls(rs) {
      ReplayIsLastWrite(rs, u);
    }
    forall u | u in StoredUrls(rs) ensures u in ReplayResponses(rs) {
      ReplayIsLastWrite(rs, u);
      var i :| 0 <= i < |rs| && Stored(rs[i]) && rs[i].url == u;
    }
  }

  /** A URL that contains `.map` never gets an entry, nor does one whose
      every response is an HTML document. */
  lemma SkippedNeverCaptured(rs: seq<Response>, url: string)
    requires Includes(url, ".map") ||
      forall j :: 0 <= j < |rs| && rs[j].url == url ==> Includes(ContentTypeOf(rs[j].headers), "text/html")
    ensures url !in ReplayResponses(rs)
  {
    ReplayIsLastWrite(rs, url);
  }
}
