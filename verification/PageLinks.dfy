/** The managed bookmark entity, its defaults and its field constraints. */
module PageLinks {
  import opened Wrappers
  import opened Text

  /** A `DateTime`, as a count of 100-nanosecond ticks. */
  type Time = int

  const TicksPerHour: int := 36_000_000_000

  /** The five status values a link can carry. */
  datatype LinkStatus = Pending | Online | Offline | Error | Timeout

  const AllStatuses: seq<LinkStatus> := [Pending, Online, Offline, Error, Timeout]

  /** The string constant the source stores for each status. */
  function StatusName(s: LinkStatus): string {
    match s
    case Pending => "Pending"
    case Online => "Online"
    case Offline => "Offline"
    case Error => "Error"
    case Timeout => "Timeout"
  }

  /** Reads back a stored status string; any other string is not a status. */
  function ParseStatus(name: string): (r: Option<LinkStatus>)
    ensures r.Some? ==> StatusName(r.value) == name
  {
    if name == "Pending" then Some(Pending)
    else if name == "Online" then Some(Online)
    else if name == "Offline" then Some(Offline)
    else if name == "Error" then Some(Error)
    else if name == "Timeout" then Some(Timeout)
    else None
  }

  /** There are exactly five statuses, with pairwise distinct names, and
      every name reads back as its status. */
  lemma StatusesAreFive()
    ensures |AllStatuses| == 5
    ensures forall s: LinkStatus :: s in AllStatuses
    ensures forall i, j :: 0 <= i < j < |AllStatuses| ==>
              StatusName(AllStatuses[i]) != StatusName(AllStatuses[j])
    ensures forall s: LinkStatus :: ParseStatus(StatusName(s)) == Some(s)
  {
    forall s: LinkStatus
      ensures s in AllStatuses
    {
      match s
      case Pending => assert AllStatuses[0] == s;
      case Online => assert AllStatuses[1] == s;
      case Offline => assert AllStatuses[2] == s;
      case Error => assert AllStatuses[3] == s;
      case Timeout => assert AllStatuses[4] == s;
    }
  }

  /** A page link record. `status` is a free string, as in the source: the
      store copies whatever string it is given. */
  datatype PageLink = PageLink(
    id: int,
    url: string,
    title: Option<string>,
    description: Option<string>,
    status: string,
    httpStatusCode: Option<int>,
    responseTimeMs: Option<int>,
    createdAt: Time,
    lastCheckedAt: Option<Time>,
    errorMessage: Option<string>,
    category: Option<string>,
    notes: Option<string>,
    isActive: bool)

  /** A freshly constructed record: every property at its initializer. */
  function NewPageLink(now: Time): (p: PageLink)
    ensures p.status == StatusName(Pending) && p.isActive
    ensures p.createdAt == now && p.url == []
    ensures p.title.None? && p.description.None? && p.errorMessage.None?
    ensures p.category.None? && p.notes.None?
    ensures p.httpStatusCode.None? && p.responseTimeMs.None? && p.lastCheckedAt.None?
  {
    PageLink(0, "", None, None, "Pending", None, None, now, None, None, None, None, true)
  }

  /** `[Required]` on a string: present and not blank. */
  predicate Required(s: string) {
    !IsBlank(s)
  }

  /** `[MaxLength(n)]`: an absent value passes; a present one has at most `n` UTF-16 units. */
  predicate MaxLength(s: Option<string>, n: nat) {
    s.None? || Utf16Length(s.value) <= n
  }

  /** The data-annotation constraints of the record (the URL syntax check aside). */
  predicate Valid(p: PageLink) {
    && Required(p.url) && MaxLength(Some(p.url), 2000)
    && MaxLength(p.title, 500)
    && MaxLength(p.description, 1000)
    && Required(p.status) && MaxLength(Some(p.status), 50)
    && MaxLength(p.errorMessage, 1000)
    && MaxLength(p.category, 100)
    && MaxLength(p.notes, 2000)
  }

  /** What validity means in characters: a URL of 1..2000, a status of 1..50,
      and the optional texts within their caps (a character is one or two UTF-16 units). */
  lemma ValidBounds(p: PageLink)
    requires Valid(p)
    ensures 0 < |p.url| <= 2000 && 0 < |p.status| <= 50
    ensures p.title.Some? ==> |p.title.value| <= 500
    ensures p.description.Some? ==> |p.description.value| <= 1000
    ensures p.errorMessage.Some? ==> |p.errorMessage.value| <= 1000
    ensures p.category.Some? ==> |p.category.value| <= 100
    ensures p.notes.Some? ==> |p.notes.value| <= 2000
  {
  }

  /** Every status name satisfies the constraints of the `Status` column. */
  lemma StatusNameFits(s: LinkStatus)
    ensures Required(StatusName(s)) && MaxLength(Some(StatusName(s)), 50)
  {
    assert StatusName(s)[0] != ' ' && !IsWhiteSpace(StatusName(s)[0]);
  }

  /** A new record is valid exactly when it has been given a non-blank URL
      of at most 2000 units: all its other defaults already pass. */
  lemma NewPageLinkValidIff(now: Time, url: string)
    ensures Valid(NewPageLink(now).(url := url)) <==> Required(url) && Utf16Length(url) <= 2000
  {
    StatusNameFits(Pending);
  }

  /** The default record itself is not valid: its URL is empty. */
  lemma NewPageLinkNeedsUrl(now: Time)
    ensures !Valid(NewPageLink(now))
  {
  }
}
