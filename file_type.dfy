/** Classification of a captured response (`getFileType`) and the allow-list
    that decides whether its body is kept (`shouldCapureContent`). */
module FileType {
  import opened Wrappers
  import opened JsText

  /** Some pattern of `ps` occurs in `s`: `ps.some(p => s.includes(p))`. */
  predicate AnyIncluded(s: string, ps: seq<string>) {
    exists i :: 0 <= i < |ps| && Includes(s, ps[i])
  }

  /** One content-type test of the classifier: the class it yields when the
      content type includes any of its patterns. */
  datatype Rule = Rule(patterns: seq<string>, fileType: string)

  predicate RuleMatches(contentType: string, rule: Rule) {
    AnyIncluded(contentType, rule.patterns)
  }

  /** The content-type tests in the order the classifier tries them. */
  const ContentTypeRules: seq<Rule> := [
    Rule(["javascript"], "javascript"),
    Rule(["css"], "stylesheet"),
    Rule(["image"], "image"),
    Rule(["font"], "font"),
    Rule(["json"], "json"),
    Rule(["video"], "video"),
    Rule(["audio"], "audio"),
    Rule(["xml", "rss"], "xml"),
    Rule(["pdf"], "pdf"),
    Rule(["text"], "text"),
    Rule(["application"], "application")
  ]

  /** The index of the first rule that matches, if any. */
  function FirstRule(contentType: string, rules: seq<Rule>): (r: Option<nat>)
    ensures r.Some? ==> r.value < |rules| && RuleMatches(contentType, rules[r.value])
    ensures r.Some? ==> forall j :: 0 <= j < r.value ==> !RuleMatches(contentType, rules[j])
    ensures r.None? ==> forall j :: 0 <= j < |rules| ==> !RuleMatches(contentType, rules[j])
  {
    if |rules| == 0 then None
    else if RuleMatches(contentType, rules[0]) then Some(0)
    else match FirstRule(contentType, rules[1..])
      case None => None
      case Some(k) => Some(k + 1)
  }

  /** The extension lookup table, consulted only when no content-type test matches. */
  const ExtensionTable: map<string, string> := map[
    "js" := "javascript",
    "css" := "stylesheet",
    "png" := "image", "jpg" := "image", "jpeg" := "image", "gif" := "image", "svg" := "image", "webp" := "image",
    "ttf" := "font", "woff" := "font", "woff2" := "font", "eot" := "font",
    "json" := "json",
    "mp4" := "video", "webm" := "video",
    "mp3" := "audio", "wav" := "audio",
    "pdf" := "pdf",
    "xml" := "xml"
  ]

  /** `fileName.split(".").pop().toLowerCase()`: the text after the last dot
      (the whole name when there is none), lower-cased. */
  function Extension(fileName: string): string {
    ToLowerAscii(LastSegment(fileName, '.'))
  }

  /** The class read off the extension, `"other"` when the table has none. */
  function ExtensionType(fileName: string): string {
    var ext := Extension(fileName);
    if ext in ExtensionTable then ExtensionTable[ext] else "other"
  }

  /** The eleven substring tests `getFileType` makes on the content type,
      in the order it makes them; `None` when none of them matches. */
  function ContentTypeClass(contentType: string): Option<string> {
    if Includes(contentType, "javascript") then Some("javascript")
    else if Includes(contentType, "css") then Some("stylesheet")
    else if Includes(contentType, "image") then Some("image")
    else if Includes(contentType, "font") then Some("font")
    else if Includes(contentType, "json") then Some("json")
    else if Includes(contentType, "video") then Some("video")
    else if Includes(contentType, "audio") then Some("audio")
    else if Includes(contentType, "xml") || Includes(contentType, "rss") then Some("xml")
    else if Includes(contentType, "pdf") then Some("pdf")
    else if Includes(contentType, "text") then Some("text")
    else if Includes(contentType, "application") then Some("application")
    else None
  }

  /** `getFileType(contentType, fileName)`: the content-type tests, then the
      extension table (looked up on its own keys only; see
      `GetFileTypeAsWritten` for the lookup as the source writes it). */
  function GetFileType(contentType: string, fileName: string): string {
    match ContentTypeClass(contentType)
    case Some(t) => t
    case None => ExtensionType(fileName)
  }

  lemma SinglePatternRule(contentType: string, p: string)
    ensures AnyIncluded(contentType, [p]) <==> Includes(contentType, p)
  {
    if Includes(contentType, p) {
      assert Includes(contentType, [p][0]);
    }
  }

  /** The content-type tests are the rules of the ordered table: they give
      the class of the first rule that matches, and nothing when none does. */
  lemma ContentTypeClassIsFirstRule(contentType: string)
    ensures ContentTypeClass(contentType) ==
      match FirstRule(contentType, ContentTypeRules)
      case Some(k) => Some(ContentTypeRules[k].fileType)
      case None => None
  {
    match FirstRule(contentType, ContentTypeRules)
    case None => ChainMatchesNone(contentType);
    case Some(k) => ChainStopsAt(contentType, k);
  }

  /** Each rule of the table is the test the chain makes at its position. */
  lemma RuleMatchesIff(ct: string)
    ensures RuleMatches(ct, ContentTypeRules[0]) == Includes(ct, "javascript")
    ensures RuleMatches(ct, ContentTypeRules[1]) == Includes(ct, "css")
    ensures RuleMatches(ct, ContentTypeRules[2]) == Includes(ct, "image")
    ensures RuleMatches(ct, ContentTypeRules[3]) == Includes(ct, "font")
    ensures RuleMatches(ct, ContentTypeRules[4]) == Includes(ct, "json")
    ensures RuleMatches(ct, ContentTypeRules[5]) == Includes(ct, "video")
    ensures RuleMatches(ct, ContentTypeRules[6]) == Includes(ct, "audio")
    ensures RuleMatches(ct, ContentTypeRules[7]) == (Includes(ct, "xml") || Includes(ct, "rss"))
    ensures RuleMatches(ct, ContentTypeRules[8]) == Includes(ct, "pdf")
    ensures RuleMatches(ct, ContentTypeRules[9]) == Includes(ct, "text")
    ensures RuleMatches(ct, ContentTypeRules[10]) == Includes(ct, "application")
  {
    var rs := ContentTypeRules;
    SinglePatternRule(ct, "javascript");
    SinglePatternRule(ct, "css");
    SinglePatternRule(ct, "image");
    SinglePatternRule(ct, "font");
    SinglePatternRule(ct, "json");
    SinglePatternRule(ct, "video");
    SinglePatternRule(ct, "audio");
    assert RuleMatches(ct, rs[7]) <==> Includes(ct, "xml") || Includes(ct, "rss") by {
      if Includes(ct, "xml") { assert Includes(ct, rs[7].patterns[0]); }
      if Includes(ct, "rss") { assert Includes(ct, rs[7].patterns[1]); }
    }
    SinglePatternRule(ct, "pdf");
    SinglePatternRule(ct, "text");
    SinglePatternRule(ct, "application");
  }

  lemma ChainMatchesNone(ct: string)
    requires forall j :: 0 <= j < |ContentTypeRules| ==> !RuleMatches(ct, ContentTypeRules[j])
    ensures ContentTypeClass(ct) == None
  {
    var rs := ContentTypeRules;
    RuleMatchesIff(ct);
    assert !RuleMatches(ct, rs[0]) && !RuleMatches(ct, rs[1]) && !RuleMatches(ct, rs[2]);
    assert !RuleMatches(ct, rs[3]) && !RuleMatches(ct, rs[4]) && !RuleMatches(ct, rs[5]);
    assert !RuleMatches(ct, rs[6]) && !RuleMatches(ct, rs[7]) && !RuleMatches(ct, rs[8]);
    assert !RuleMatches(ct, rs[9]) && !RuleMatches(ct, rs[10]);
  }

  lemma ChainStopsAt(ct: string, k: nat)
    requires k < |ContentTypeRules| && RuleMatches(ct, ContentTypeRules[k])
    requires forall j :: 0 <= j < k ==> !RuleMatches(ct, ContentTypeRules[j])
    ensures ContentTypeClass(ct) == Some(ContentTypeRules[k].fileType)
  {
    var rs := ContentTypeRules;
    RuleMatchesIff(ct);
    if k > 0 { assert !RuleMatches(ct, rs[0]); }
    if k > 1 { assert !RuleMatches(ct, rs[1]); }
    if k > 2 { assert !RuleMatches(ct, rs[2]); }
    if k > 3 { assert !RuleMatches(ct, rs[3]); }
    if k > 4 { assert !RuleMatches(ct, rs[4]); }
    if k > 5 { assert !RuleMatches(ct, rs[5]); }
    if k > 6 { assert !RuleMatches(ct, rs[6]); }
    if k > 7 { assert !RuleMatches(ct, rs[7]); }
    if k > 8 { assert !RuleMatches(ct, rs[8]); }
    if k > 9 { assert !RuleMatches(ct, rs[9]); }
  }

  /** The classifier is the first matching rule of the ordered table, and
      falls back to the extension table exactly when no rule matches. */
  lemma GetFileTypeIsFirstRule(contentType: string, fileName: string)
    ensures GetFileType(contentType, fileName) ==
      match FirstRule(contentType, ContentTypeRules)
      case Some(k) => ContentTypeRules[k].fileType
      case None => ExtensionType(fileName)
  {
    ContentTypeClassIsFirstRule(contentType);
  }

  /** The content-type tests take priority: when some test matches, the
      class is that of the earliest matching test, whatever the file name. */
  lemma ContentTypeTakesPriority(contentType: string, fileName: string, k: nat)
    requires k < |ContentTypeRules| && RuleMatches(contentType, ContentTypeRules[k])
    requires forall j :: 0 <= j < k ==> !RuleMatches(contentType, ContentTypeRules[j])
    ensures GetFileType(contentType, fileName) == ContentTypeRules[k].fileType
  {
    GetFileTypeIsFirstRule(contentType, fileName);
  }

  /** The extension table is consulted only when no content-type test
      matches; an extension it does not list gives `"other"`. */
  lemma ExtensionOnlyAsFallback(contentType: string, fileName: string, otherName: string)
    ensures (forall j :: 0 <= j < |ContentTypeRules| ==> !RuleMatches(contentType, ContentTypeRules[j])) ==>
      GetFileType(contentType, fileName) == ExtensionType(fileName)
    ensures (exists j :: 0 <= j < |ContentTypeRules| && RuleMatches(contentType, ContentTypeRules[j])) ==>
      GetFileType(contentType, fileName) == GetFileType(contentType, otherName)
    ensures ((forall j :: 0 <= j < |ContentTypeRules| ==> !RuleMatches(contentType, ContentTypeRules[j])) &&
      Extension(fileName) !in ExtensionTable) ==> GetFileType(contentType, fileName) == "other"
  {
    GetFileTypeIsFirstRule(contentType, fileName);
    GetFileTypeIsFirstRule(contentType, otherName);
  }

  /** An ASCII `application/javascript` response is classified as javascript. */
  lemma ApplicationJavascriptIsJavascript(fileName: string)
    ensures GetFileType("application/javascript", fileName) == "javascript"
  {
    assert "application/javascript" == "application/" + "javascript";
    IncludesSuffix("application/", "javascript");
  }

  /** The allow-list of `shouldCapureContent`. */
  const TextTypes: seq<string> := [
    "javascript", "css", "json", "xml", "text", "application/json", "application/javascript", "text/html"
  ]

  /** `shouldCapureContent(contentType)`: the content type includes one of
      the allow-listed patterns. */
  predicate ShouldCaptureContent(contentType: string) {
    AnyIncluded(contentType, TextTypes)
  }

  /** The three longer allow-list entries add nothing: the body is kept
      exactly when the content type mentions javascript, css, json, xml or text. */
  lemma ShouldCaptureContentIff(contentType: string)
    ensures ShouldCaptureContent(contentType) <==>
      Includes(contentType, "javascript") || Includes(contentType, "css") || Includes(contentType, "json") ||
      Includes(contentType, "xml") || Includes(contentType, "text")
  {
    var ct := contentType;
    if ShouldCaptureContent(ct) {
      var i :| 0 <= i < |TextTypes| && Includes(ct, TextTypes[i]);
      if i == 5 {
        assert "application/json" == "application/" + "json";
        IncludesSuffix("application/", "json");
        IncludesTransitive(ct, "application/json", "json");
      } else if i == 6 {
        assert "application/javascript" == "application/" + "javascript";
        IncludesSuffix("application/", "javascript");
        IncludesTransitive(ct, "application/javascript", "javascript");
      } else if i == 7 {
        assert "text/html" == "text" + "/html";
        IncludesPrefix("text", "/html");
        IncludesTransitive(ct, "text/html", "text");
      }
    }
    if Includes(ct, "javascript") { assert Includes(ct, TextTypes[0]); }
    if Includes(ct, "css") { assert Includes(ct, TextTypes[1]); }
    if Includes(ct, "json") { assert Includes(ct, TextTypes[2]); }
    if Includes(ct, "xml") { assert Includes(ct, TextTypes[3]); }
    if Includes(ct, "text") { assert Includes(ct, TextTypes[4]); }
  }

  /** The twelve classes the classifier is meant to produce. */
  const FileClasses: set<string> := {
    "javascript", "stylesheet", "image", "font", "json", "video", "audio", "xml", "pdf", "text",
    "application", "other"
  }

  /** Every file name is classified into one of the twelve classes. */
  lemma GetFileTypeIsAClass(contentType: string, fileName: string)
    ensures GetFileType(contentType, fileName) in FileClasses
  {
    GetFileTypeIsFirstRule(contentType, fileName);
    match FirstRule(contentType, ContentTypeRules)
    case None => ExtensionTypeIsAClass(fileName);
    case Some(k) => RuleTypesAreClasses();
  }

  lemma RuleTypesAreClasses()
    ensures forall k :: 0 <= k < |ContentTypeRules| ==> ContentTypeRules[k].fileType in FileClasses
  {
  }

  /** The extension fallback yields one of the classes, and `"other"`
      exactly when the table does not list the extension. */
  lemma ExtensionTypeIsAClass(fileName: string)
    ensures ExtensionType(fileName) in FileClasses
    ensures ExtensionType(fileName) == "other" <==> Extension(fileName) !in ExtensionTable
  {
    TableValuesAreClasses();
    TableHasNoOther();
  }

  lemma TableHasNoOther()
    ensures forall e :: e in ExtensionTable ==> ExtensionTable[e] != "other"
  {
  }

  lemma TableValuesAreClasses()
    ensures forall e :: e in ExtensionTable ==> ExtensionTable[e] in FileClasses
  {
  }

  /** What `typeMap[ext]` reads from the object literal the source builds:
      one of its own entries, or a member that every object inherits from
      `Object.prototype`. */
  datatype LookupValue = Entry(fileType: string) | Inherited(member: string)

  /** The inherited members of `Object.prototype` whose names are all lower
      case, so that a lower-cased extension can spell them. */
  const InheritedLowerCaseNames: set<string> := {"constructor", "__proto__"}

  /** `typeMap[ext] || "other"` as the source writes it: an inherited member
      is a function or an object, which is truthy, so it is returned as the
      type in place of `"other"`. */
  function ExtensionTypeAsWritten(fileName: string): (r: LookupValue)
    ensures Extension(fileName) !in InheritedLowerCaseNames ==> r == Entry(ExtensionType(fileName))
  {
    var ext := Extension(fileName);
    if ext in ExtensionTable then Entry(ExtensionTable[ext])
    else if ext in InheritedLowerCaseNames then Inherited(ext)
    else Entry("other")
  }

  /** `getFileType` as the source writes it: the same content-type tests,
      then `typeMap[ext] || "other"`. It differs from `GetFileType` only
      when no test matches and the extension names an inherited member. */
  function GetFileTypeAsWritten(contentType: string, fileName: string): (r: LookupValue)
    ensures ContentTypeClass(contentType).Some? ==> r == Entry(GetFileType(contentType, fileName))
    ensures Extension(fileName) !in InheritedLowerCaseNames ==> r == Entry(GetFileType(contentType, fileName))
  {
    match ContentTypeClass(contentType)
    case Some(t) => Entry(t)
    case None => ExtensionTypeAsWritten(fileName)
  }

  /** The classifier as written is the first matching rule of the ordered
      table, and otherwise the extension lookup as written. */
  lemma GetFileTypeAsWrittenIsFirstRule(contentType: string, fileName: string)
    ensures GetFileTypeAsWritten(contentType, fileName) ==
      match FirstRule(contentType, ContentTypeRules)
      case Some(k) => Entry(ContentTypeRules[k].fileType)
      case None => ExtensionTypeAsWritten(fileName)
  {
    ContentTypeClassIsFirstRule(contentType);
  }

  /** A response without a content type passes none of the tests. */
  lemma EmptyContentTypeHasNoClass()
    ensures ContentTypeClass("") == None
  {
  }

  /** A file named `<base>.constructor` served without a content type is
      given a function object as its type by `getFileType` as written, and
      `"other"` by the own-key lookup this model uses. */
  lemma InheritedExtensionLeaks(base: string)
    ensures ExtensionTypeAsWritten(base + ".constructor") == Inherited("constructor")
    ensures ExtensionType(base + ".constructor") == "other"
    ensures GetFileTypeAsWritten("", base + ".constructor") == Inherited("constructor")
    ensures GetFileType("", base + ".constructor") == "other"
  {
    EmptyContentTypeHasNoClass();
    ConstructorExtension(base);
    assert "constructor" !in ExtensionTable;
  }

  /** The extension of `<base>.constructor` is `constructor`. */
  lemma ConstructorExtension(base: string)
    ensures Extension(base + ".constructor") == "constructor"
  {
    var tail := "constructor";
    assert forall k :: 0 <= k < |tail| ==> 'a' <= tail[k] <= 'z';
    ExtensionOfLowerTail(base, tail);
    assert base + ".constructor" == base + ['.'] + tail;
  }

  /** After the last dot, a tail of lower-case letters is the extension. */
  lemma ExtensionOfLowerTail(base: string, tail: string)
    requires forall k :: 0 <= k < |tail| ==> 'a' <= tail[k] <= 'z'
    ensures Extension(base + ['.'] + tail) == tail
  {
    LastSegmentOfTail(base, '.', tail);
    ToLowerAsciiIdentity(tail);
  }
}
