/** The health checker: one probe of a URL turned into a `HealthCheckResult`,
    page metadata extracted from the HTML of a successful response, the
    result classified into a link status, and the result written onto a link.

    The HTTP exchange itself is an input (`ProbeOutcome`), as are the elapsed
    milliseconds and the clock reading taken when the result was created. */
module HealthChecker {
  import opened Wrappers
  import opened Text
  import opened PageLinks

  // ---------------------------------------------------------------------------
  // Parsed HTML and node selection

  /** An HTML element as the parser hands it over. Only `<title>` and `<meta>`
      matter to extraction; every other element is `OtherElement`. */
  datatype Node =
    | TitleElement(innerText: string)
    | Meta(name: Option<string>, property: Option<string>, content: Option<string>)
    | OtherElement

  /** A response body: the parser either produced a document, in document
      order, or failed. */
  datatype Html = Parsed(nodes: seq<Node>) | Unparseable

  /** The four XPath queries extraction issues: `//title`,
      `//meta[@name='…']` and `//meta[@property='…']`. */
  datatype Selector = TitleTag | MetaByName(nameValue: string) | MetaByProperty(propertyValue: string)

  predicate Selects(sel: Selector, n: Node) {
    match sel
    case TitleTag => n.TitleElement?
    case MetaByName(v) => n.Meta? && n.name == Some(v)
    case MetaByProperty(v) => n.Meta? && n.property == Some(v)
  }

  /** `nodes[i]` is the first node, in document order, that `sel` selects. */
  ghost predicate FirstMatchAt(nodes: seq<Node>, sel: Selector, i: int) {
    && 0 <= i < |nodes|
    && Selects(sel, nodes[i])
    && forall j :: 0 <= j < i ==> !Selects(sel, nodes[j])
  }

  ghost predicate NoMatch(nodes: seq<Node>, sel: Selector) {
    forall j :: 0 <= j < |nodes| ==> !Selects(sel, nodes[j])
  }

  /** `SelectSingleNode` from position `k` on: the index of the first selected node, if any. */
  function FirstMatchFrom(nodes: seq<Node>, sel: Selector, k: nat): (r: Option<nat>)
    requires k <= |nodes|
    decreases |nodes| - k
    ensures r.Some? ==> k <= r.value < |nodes| && Selects(sel, nodes[r.value])
    ensures r.Some? ==> forall j :: k <= j < r.value ==> !Selects(sel, nodes[j])
    ensures r.None? ==> forall j :: k <= j < |nodes| ==> !Selects(sel, nodes[j])
  {
    if k == |nodes| then None
    else if Selects(sel, nodes[k]) then Some(k)
    else FirstMatchFrom(nodes, sel, k + 1)
  }

  /** `SelectSingleNode`: the first selected node of the document, if any. */
  function SelectSingleNode(nodes: seq<Node>, sel: Selector): (r: Option<nat>)
    ensures r.Some? ==> FirstMatchAt(nodes, sel, r.value)
    ensures r.None? <==> NoMatch(nodes, sel)
    ensures forall i :: FirstMatchAt(nodes, sel, i) ==> r == Some(i)
  {
    FirstMatchFrom(nodes, sel, 0)
  }

  /** `GetAttributeValue("content", string.Empty)`: a missing attribute reads as empty. */
  function ContentOf(n: Node): string {
    if n.Meta? then n.content.GetOr("") else ""
  }

  function InnerTextOf(n: Node): string {
    if n.TitleElement? then n.innerText else ""
  }

  // ---------------------------------------------------------------------------
  // Metadata extraction

  datatype Metadata = Metadata(title: Option<string>, description: Option<string>)

  predicate IsTrimmed(s: string) {
    s == [] || (!IsWhiteSpace(s[0]) && !IsWhiteSpace(s[|s| - 1]))
  }

  /** The text a selected node offers: the inner text of a `<title>`, the
      `content` attribute of a `<meta>`. */
  function TextOf(sel: Selector, n: Node): string {
    if sel.TitleTag? then InnerTextOf(n) else ContentOf(n)
  }

  /** The trimmed text the first node chosen by `sel` contributes, if there is one. */
  function Pick(nodes: seq<Node>, sel: Selector): (r: Option<string>)
    ensures r.Some? ==> IsTrimmed(r.value)
    ensures r.None? <==> NoMatch(nodes, sel)
    ensures forall i :: FirstMatchAt(nodes, sel, i) ==> r == Some(Trim(TextOf(sel, nodes[i])))
  {
    match SelectSingleNode(nodes, sel)
    case None => None
    case Some(i) => Some(Trim(TextOf(sel, nodes[i])))
  }

  /** The first value unless it is null or empty, in which case the second
      one, when there is one, replaces it. */
  function OrFallback(first: Option<string>, second: Option<string>): Option<string> {
    if IsNullOrEmpty(first) && second.Some? then second else first
  }

  /** `ExtractMetadata`. The title is the trimmed text of the first `<title>`,
      replaced by the trimmed `content` of the first `og:title` meta when
      that is empty; the description is the trimmed `content` of the first
      `name="description"` meta, replaced by that of the first
      `og:description` meta when empty. A document the parser rejects
      yields nothing. */
  function ExtractMetadata(html: Html): (m: Metadata)
    ensures html.Unparseable? ==> m == Metadata(None, None)
    ensures m.title.Some? ==> IsTrimmed(m.title.value)
    ensures m.description.Some? ==> IsTrimmed(m.description.value)
    ensures html.Parsed? ==>
      (m.title.None? <==> NoMatch(html.nodes, TitleTag) && NoMatch(html.nodes, MetaByProperty("og:title")))
    ensures html.Parsed? ==>
      (m.description.None? <==>
        NoMatch(html.nodes, MetaByName("description")) && NoMatch(html.nodes, MetaByProperty("og:description")))
    ensures html.Parsed? && NoMatch(html.nodes, MetaByProperty("og:title")) ==>
      m.title == Pick(html.nodes, TitleTag)
    ensures html.Parsed? && NoMatch(html.nodes, MetaByProperty("og:description")) ==>
      m.description == Pick(html.nodes, MetaByName("description"))
  {
    match html
    case Unparseable => Metadata(None, None)
    case Parsed(nodes) =>
      var description := OrFallback(Pick(nodes, MetaByName("description")), Pick(nodes, MetaByProperty("og:description")));
      var title := OrFallback(Pick(nodes, TitleTag), Pick(nodes, MetaByProperty("og:title")));
      Metadata(title, description)
  }

  /** The first match is unique, so it is what `SelectSingleNode` finds. */
  lemma SelectFindsFirstMatch(nodes: seq<Node>, sel: Selector, i: int)
    requires FirstMatchAt(nodes, sel, i)
    ensures SelectSingleNode(nodes, sel) == Some(i)
  {
    var r := SelectSingleNode(nodes, sel);
    assert !NoMatch(nodes, sel) by {
      assert Selects(sel, nodes[i]);
    }
    assert Selects(sel, nodes[r.value]) && !(r.value > i);
  }

  /** A first `<title>` with visible text wins, whatever `og:title` says. */
  lemma TitleFromTitleElement(nodes: seq<Node>, i: int)
    requires FirstMatchAt(nodes, TitleTag, i) && !IsBlank(nodes[i].innerText)
    ensures ExtractMetadata(Parsed(nodes)).title == Some(Trim(nodes[i].innerText))
  {
    SelectFindsFirstMatch(nodes, TitleTag, i);
    TrimEmptyIffBlank(nodes[i].innerText);
    assert Pick(nodes, TitleTag) == Some(Trim(nodes[i].innerText));
  }

  /** When there is no `<title>`, or the first one is blank, the first
      `og:title` meta supplies the title, trimmed. */
  lemma TitleFromOgTitle(nodes: seq<Node>, k: int)
    requires forall i :: FirstMatchAt(nodes, TitleTag, i) ==> IsBlank(nodes[i].innerText)
    requires FirstMatchAt(nodes, MetaByProperty("og:title"), k)
    ensures ExtractMetadata(Parsed(nodes)).title == Some(Trim(ContentOf(nodes[k])))
  {
    var t := SelectSingleNode(nodes, TitleTag);
    if t.Some? {
      TrimEmptyIffBlank(nodes[t.value].innerText);
    }
  }

  /** A first `name="description"` meta with visible content wins, whatever
      `og:description` says. */
  lemma DescriptionFromNameMeta(nodes: seq<Node>, i: int)
    requires FirstMatchAt(nodes, MetaByName("description"), i) && !IsBlank(ContentOf(nodes[i]))
    ensures ExtractMetadata(Parsed(nodes)).description == Some(Trim(ContentOf(nodes[i])))
  {
    TrimEmptyIffBlank(ContentOf(nodes[i]));
  }

  /** When the description meta is missing, has no `content`, or its content
      is blank, the first `og:description` meta supplies the description. */
  lemma DescriptionFromOgDescription(nodes: seq<Node>, k: int)
    requires forall i :: FirstMatchAt(nodes, MetaByName("description"), i) ==> IsBlank(ContentOf(nodes[i]))
    requires FirstMatchAt(nodes, MetaByProperty("og:description"), k)
    ensures ExtractMetadata(Parsed(nodes)).description == Some(Trim(ContentOf(nodes[k])))
  {
    var d := SelectSingleNode(nodes, MetaByName("description"));
    if d.Some? {
      TrimEmptyIffBlank(ContentOf(nodes[d.value]));
    }
  }

  /** A blank first `<title>` and no `og:title`: the title is the empty
      string, not null, and the updater then keeps the stored title. */
  lemma BlankTitleWithoutOgTitle(nodes: seq<Node>, i: int)
    requires FirstMatchAt(nodes, TitleTag, i) && IsBlank(nodes[i].innerText)
    requires NoMatch(nodes, MetaByProperty("og:title"))
    ensures ExtractMetadata(Parsed(nodes)).title == Some("")
  {
    TrimEmptyIffBlank(nodes[i].innerText);
  }

  /** A blank or content-less first description meta and no
      `og:description`: the description is the empty string. */
  lemma BlankDescriptionWithoutOgDescription(nodes: seq<Node>, i: int)
    requires FirstMatchAt(nodes, MetaByName("description"), i) && IsBlank(ContentOf(nodes[i]))
    requires NoMatch(nodes, MetaByProperty("og:description"))
    ensures ExtractMetadata(Parsed(nodes)).description == Some("")
  {
    TrimEmptyIffBlank(ContentOf(nodes[i]));
  }

  // ---------------------------------------------------------------------------
  // Probing

  /** The three ways the exchange can throw: `TaskCanceledException` (the
      client's timeout), `HttpRequestException` and any other exception,
      the last two with their `Message`. */
  datatype Failure =
    | TimedOut
    | NetworkError(detail: string)
    | Unexpected(detail: string)

  /** The body of a response: read and parsed, or the read threw. */
  datatype Body = Received(html: Html) | ReadFailed(failure: Failure)

  /** What one probe's HTTP GET produced: a response with its numeric status
      (which .NET holds in 0..999), optional reason phrase and body, or a
      failure before any response arrived. The body is read only for a 2xx
      response; for any other it is ignored. */
  datatype ProbeOutcome =
    | Response(code: nat, reason: Option<string>, body: Body)
    | Failed(failure: Failure)

  /** The value a probe produces; never persisted. */
  datatype HealthCheckResult = HealthCheckResult(
    isHealthy: bool,
    statusCode: Option<int>,
    responseTimeMs: int,
    title: Option<string>,
    description: Option<string>,
    errorMessage: Option<string>,
    checkedAt: Time)

  const TimeoutMessage: string := "Timeout: A requisição excedeu o tempo limite"
  lemma TimeoutMessageMentionsTimeout()
    ensures Contains(TimeoutMessage, "Timeout")
  {
    assert TimeoutMessage[..7] == "Timeout" by {
      forall k | 0 <= k < 7
        ensures TimeoutMessage[..7][k] == "Timeout"[k]
      {
        assert TimeoutMessage[k] == "Timeout"[k];
      }
    }
  }

  const NetworkErrorPrefix: string := "Erro de rede: "
  const UnexpectedErrorPrefix: string := "Erro inesperado: "

  /** The message each catch clause records. */
  function FailureMessage(f: Failure): string {
    match f
    case TimedOut => TimeoutMessage
    case NetworkError(detail) => NetworkErrorPrefix + detail
    case Unexpected(detail) => UnexpectedErrorPrefix + detail
  }

  /** `IsSuccessStatusCode`: the 2xx class of section 15.3 of RFC 9110. */
  predicate IsSuccessStatusCode(code: int) {
    200 <= code <= 299
  }

  /** A 2xx response whose body was read. */
  predicate Succeeded(outcome: ProbeOutcome) {
    outcome.Response? && IsSuccessStatusCode(outcome.code) && outcome.body.Received?
  }

  /** The message of a response outside the 2xx class: `HTTP {code}: {reason}`,
      a null reason phrase rendering as nothing. */
  function HttpErrorMessage(code: nat, reason: Option<string>): string {
    "HTTP " + Decimal(code) + ": " + reason.GetOr("")
  }

  /** `CheckHealthAsync`, with the network exchange as the input `outcome`,
      `elapsedMs` the stopwatch reading and `startedAt` the clock reading when
      the result object was created (before the request). A failure while
      reading a 2xx body lands in the catch clauses after the status code
      was recorded, so that result keeps its code. */
  function CheckHealth(outcome: ProbeOutcome, elapsedMs: nat, startedAt: Time): (r: HealthCheckResult)
    ensures r.checkedAt == startedAt && r.responseTimeMs == elapsedMs
    ensures r.isHealthy <==> Succeeded(outcome)
    ensures r.statusCode == if outcome.Response? then Some(outcome.code) else None
    ensures r.errorMessage.None? <==> r.isHealthy
    ensures !r.isHealthy ==> r.title.None? && r.description.None?
    ensures r.isHealthy ==> Metadata(r.title, r.description) == ExtractMetadata(outcome.body.html)
    ensures outcome.Response? && !IsSuccessStatusCode(outcome.code) ==>
      r.errorMessage == Some(HttpErrorMessage(outcome.code, outcome.reason))
    ensures outcome.Response? && IsSuccessStatusCode(outcome.code) && outcome.body.ReadFailed? ==>
      r.errorMessage == Some(FailureMessage(outcome.body.failure))
    ensures outcome.Failed? ==> r.errorMessage == Some(FailureMessage(outcome.failure))
  {
    match outcome
    case Response(code, reason, body) =>
      if !IsSuccessStatusCode(code) then
        HealthCheckResult(false, Some(code), elapsedMs, None, None, Some(HttpErrorMessage(code, reason)), startedAt)
      else
        match body {
          case Received(html) =>
            var m := ExtractMetadata(html);
            HealthCheckResult(true, Some(code), elapsedMs, m.title, m.description, None, startedAt)
          case ReadFailed(f) =>
            HealthCheckResult(false, Some(code), elapsedMs, None, None, Some(FailureMessage(f)), startedAt)
        }
    case Failed(f) =>
      HealthCheckResult(false, None, elapsedMs, None, None, Some(FailureMessage(f)), startedAt)
  }

  // ---------------------------------------------------------------------------
  // Status classification

  /** Whether an unhealthy result counts as a timeout: its message mentions "Timeout". */
  predicate MentionsTimeout(r: HealthCheckResult) {
    r.errorMessage.Some? && Contains(r.errorMessage.value, "Timeout")
  }

  /** `DetermineStatus`. Never `Pending`; each of the other four statuses
      holds for exactly the results listed. */
  function DetermineStatus(r: HealthCheckResult): (s: LinkStatus)
    ensures s != Pending
    ensures s == Timeout <==> !r.isHealthy && MentionsTimeout(r)
    ensures s == Online <==> r.isHealthy && r.statusCode.Some? && 200 <= r.statusCode.value < 300
    ensures s == Error <==> r.isHealthy && r.statusCode.Some? && r.statusCode.value >= 400
    ensures s == Offline <==>
      || (!r.isHealthy && !MentionsTimeout(r))
      || (r.isHealthy && (r.statusCode.None? || r.statusCode.value < 200 || 300 <= r.statusCode.value < 400))
  {
    if !r.isHealthy then
      if MentionsTimeout(r) then Timeout else Offline
    else if r.statusCode.Some? && 200 <= r.statusCode.value < 300 then
      Online
    else if r.statusCode.Some? && r.statusCode.value >= 400 then
      Error
    else
      Offline
  }

  /** A 2xx response whose body was read classifies as `Online`. */
  lemma SuccessIsOnline(code: nat, reason: Option<string>, html: Html, elapsedMs: nat, startedAt: Time)
    requires IsSuccessStatusCode(code)
    ensures DetermineStatus(CheckHealth(Response(code, reason, Received(html)), elapsedMs, startedAt)) == Online
  {
  }

  /** A response outside the 2xx class classifies as `Timeout` exactly when
      its reason phrase mentions "Timeout" (408 Request Timeout and 504
      Gateway Timeout do), and as `Offline` otherwise; never as `Error`. */
  lemma HttpFailureStatus(code: nat, reason: Option<string>, body: Body, elapsedMs: nat, startedAt: Time)
    requires !IsSuccessStatusCode(code)
    ensures var s := DetermineStatus(CheckHealth(Response(code, reason, body), elapsedMs, startedAt));
      && (s == Timeout <==> Contains(reason.GetOr(""), "Timeout"))
      && (s == Offline <==> !Contains(reason.GetOr(""), "Timeout"))
  {
    var prefix := "HTTP " + Decimal(code) + ": ";
    assert HttpErrorMessage(code, reason) == prefix + reason.GetOr("");
    assert 'i' !in prefix by {
      assert prefix == "HTTP " + Decimal(code) + ": ";
      assert forall k :: 0 <= k < |Decimal(code)| ==> IsDigit(Decimal(code)[k]);
    }
    ContainsAfterPrefix(prefix, reason.GetOr(""), "Timeout", 'i');
  }

  /** The status a failure's message leads to: `Timeout` for the client's
      timeout, and for another failure whose own message mentions "Timeout";
      `Offline` for the rest. */
  function FailureStatus(f: Failure): LinkStatus {
    if f.TimedOut? || Contains(f.detail, "Timeout") then Timeout else Offline
  }

  /** A failed request classifies by its failure alone. */
  lemma FailedStatus(f: Failure, elapsedMs: nat, startedAt: Time)
    ensures DetermineStatus(CheckHealth(Failed(f), elapsedMs, startedAt)) == FailureStatus(f)
  {
    match f
    case TimedOut =>
      TimeoutMessageMentionsTimeout();
    case NetworkError(detail) =>
      ContainsAfterPrefix(NetworkErrorPrefix, detail, "Timeout", 'i');
    case Unexpected(detail) =>
      ContainsAfterPrefix(UnexpectedErrorPrefix, detail, "Timeout", 'T');
  }

  /** A 2xx response whose body could not be read classifies exactly like the
      same failure before any response, although it keeps its status code. */
  lemma BodyReadFailureStatus(code: nat, reason: Option<string>, f: Failure, elapsedMs: nat, startedAt: Time)
    requires IsSuccessStatusCode(code)
    ensures var r := CheckHealth(Response(code, reason, ReadFailed(f)), elapsedMs, startedAt);
      && DetermineStatus(r) == FailureStatus(f)
      && r.statusCode == Some(code)
      && r.errorMessage == CheckHealth(Failed(f), elapsedMs, startedAt).errorMessage
  {
    FailedStatus(f, elapsedMs, startedAt);
  }

  /** The `Error` status is unreachable through a probe: a healthy probe
      result always carries a 2xx code. */
  lemma ProbeNeverError(outcome: ProbeOutcome, elapsedMs: nat, startedAt: Time)
    ensures DetermineStatus(CheckHealth(outcome, elapsedMs, startedAt)) != Error
  {
  }

  // ---------------------------------------------------------------------------
  // Updating a link

  /** Lines 99-116 of `CheckAndUpdateAsync`: the probe fields are overwritten,
      title and description only by a non-empty value, and the status is the
      classification of the result. Nothing else about the link changes. */
  function ApplyResult(link: PageLink, r: HealthCheckResult): (p: PageLink)
    ensures p.httpStatusCode == r.statusCode
    ensures p.responseTimeMs == Some(r.responseTimeMs)
    ensures p.lastCheckedAt == Some(r.checkedAt)
    ensures p.errorMessage == r.errorMessage
    ensures !IsNullOrEmpty(r.title) ==> p.title == r.title
    ensures IsNullOrEmpty(r.title) ==> p.title == link.title
    ensures !IsNullOrEmpty(r.description) ==> p.description == r.description
    ensures IsNullOrEmpty(r.description) ==> p.description == link.description
    ensures p.status == StatusName(DetermineStatus(r))
    ensures p.id == link.id && p.url == link.url && p.createdAt == link.createdAt
    ensures p.category == link.category && p.notes == link.notes && p.isActive == link.isActive
  {
    link.(
      httpStatusCode := r.statusCode,
      responseTimeMs := Some(r.responseTimeMs),
      lastCheckedAt := Some(r.checkedAt),
      errorMessage := r.errorMessage,
      title := if IsNullOrEmpty(r.title) then link.title else r.title,
      description := if IsNullOrEmpty(r.description) then link.description else r.description,
      status := StatusName(DetermineStatus(r)))
  }

  /** `CheckAndUpdateAsync`: probe the link's URL (its outcome given) and
      write the result onto the link. */
  function CheckAndUpdate(link: PageLink, outcome: ProbeOutcome, elapsedMs: nat, startedAt: Time): (p: PageLink)
    ensures p.lastCheckedAt == Some(startedAt) && p.responseTimeMs == Some(elapsedMs)
    ensures p.status != StatusName(Pending)
    ensures !Succeeded(outcome) ==> p.title == link.title && p.description == link.description
    ensures p.id == link.id && p.url == link.url && p.createdAt == link.createdAt
    ensures p.category == link.category && p.notes == link.notes && p.isActive == link.isActive
  {
    ApplyResult(link, CheckHealth(outcome, elapsedMs, startedAt))
  }

  /** A successful probe clears any earlier error message and marks the link `Online`. */
  lemma SuccessClearsError(link: PageLink, outcome: ProbeOutcome, elapsedMs: nat, startedAt: Time)
    requires Succeeded(outcome)
    ensures CheckAndUpdate(link, outcome, elapsedMs, startedAt).errorMessage.None?
    ensures CheckAndUpdate(link, outcome, elapsedMs, startedAt).status == StatusName(Online)
  {
  }

  /** Writing the same result twice is writing it once. */
  lemma ApplyResultIdempotent(link: PageLink, r: HealthCheckResult)
    ensures ApplyResult(ApplyResult(link, r), r) == ApplyResult(link, r)
  {
  }

  /** Over two checks the newest non-empty title wins, and an older one is
      never erased by a check that found none; the same holds for the
      description. The probe fields come from the second check alone. */
  lemma ApplyResultTwice(link: PageLink, r1: HealthCheckResult, r2: HealthCheckResult)
    ensures var p := ApplyResult(ApplyResult(link, r1), r2);
      && p.title == (if !IsNullOrEmpty(r2.title) then r2.title else if !IsNullOrEmpty(r1.title) then r1.title else link.title)
      && p.description ==
           (if !IsNullOrEmpty(r2.description) then r2.description
            else if !IsNullOrEmpty(r1.description) then r1.description
            else link.description)
      && p.status == StatusName(DetermineStatus(r2))
      && p.lastCheckedAt == Some(r2.checkedAt) && p.errorMessage == r2.errorMessage
      && p.httpStatusCode == r2.statusCode
  {
  }

  /** Two unsuccessful checks in a row with the same outcome give the same
      status, the later check time is recorded, and the stored title and
      description survive both. */
  lemma RepeatedFailedCheck(link: PageLink, outcome: ProbeOutcome, e1: nat, e2: nat, t1: Time, t2: Time)
    requires !Succeeded(outcome) && t1 < t2
    ensures var p1 := CheckAndUpdate(link, outcome, e1, t1);
            var p2 := CheckAndUpdate(p1, outcome, e2, t2);
      && p2.status == p1.status
      && p1.lastCheckedAt.value < p2.lastCheckedAt.value
      && p2.title == link.title && p2.description == link.description
  {
  }

  /** The status the updater writes always satisfies the `Status` column's constraints. */
  lemma UpdatedStatusFits(link: PageLink, r: HealthCheckResult)
    ensures Required(ApplyResult(link, r).status) && MaxLength(Some(ApplyResult(link, r).status), 50)
  {
    StatusNameFits(DetermineStatus(r));
  }
}
