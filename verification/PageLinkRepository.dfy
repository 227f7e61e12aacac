/** The link store: page links keyed by their identity, soft deletion, and
    the filtered, ordered queries over active links. The table is a map from
    id to record; `nextId` is the identity column's next value. */
module PageLinkRepository {
  import opened Wrappers
  import opened PageLinks
  import opened LinkOrder
  import HealthChecker

  datatype Store = Store(links: map<int, PageLink>, nextId: int)

  /** Identities are positive, below the next one to hand out, and every
      record carries the id it is stored under. */
  ghost predicate Valid(s: Store) {
    && s.nextId >= 1
    && forall id :: id in s.links ==> 1 <= id < s.nextId && s.links[id].id == id
  }

  const EmptyStore: Store := Store(map[], 1)

  lemma EmptyStoreValid()
    ensures Valid(EmptyStore) && EmptyStore.links == map[]
  {
  }

  /** The two `InvalidOperationException`s the store throws. */
  datatype StoreError = DuplicateUrl(url: string) | NotFound(id: int)

  // ---------------------------------------------------------------------------
  // Filters and scanning

  /** The `Where` clauses of the queries; each one keeps active records only. */
  datatype Filter =
    | AnyActive
    | ActiveWithId(id: int)
    | ActiveWithUrl(url: string)
    | ActiveInCategory(category: string)
    | ActiveWithStatus(status: string)
    | ActiveCheckedBefore(threshold: Time)

  predicate Matches(f: Filter, p: PageLink) {
    && p.isActive
    && match f
       case AnyActive => true
       case ActiveWithId(id) => p.id == id
       case ActiveWithUrl(url) => p.url == url
       case ActiveInCategory(category) => p.category == Some(category)
       case ActiveWithStatus(status) => p.status == status
       case ActiveCheckedBefore(threshold) => p.lastCheckedAt.None? || p.lastCheckedAt.value < threshold
  }

  /** `p` is in the table, under its own id. */
  ghost predicate Stored(s: Store, p: PageLink) {
    p.id in s.links && s.links[p.id] == p
  }

  /** The stored records a filter keeps. */
  ghost function Matching(s: Store, f: Filter): set<PageLink> {
    set id | id in s.links && Matches(f, s.links[id]) :: s.links[id]
  }

  ghost function MatchingFrom(s: Store, f: Filter, lo: int): set<PageLink> {
    set id | id in s.links && lo <= id && Matches(f, s.links[id]) :: s.links[id]
  }

  /** A query result holds each record the filter keeps exactly once, and nothing else. */
  ghost predicate ExactlyMatching(s: Store, f: Filter, r: seq<PageLink>) {
    multiset(r) == multiset(Matching(s, f))
  }

  /** The kept records with ids from `lo` on, in ascending id order. */
  function Scan(s: Store, f: Filter, lo: int): seq<PageLink>
    requires Valid(s)
    decreases s.nextId - lo
  {
    if lo >= s.nextId then []
    else if lo in s.links && Matches(f, s.links[lo]) then [s.links[lo]] + Scan(s, f, lo + 1)
    else Scan(s, f, lo + 1)
  }

  lemma MultisetOfDisjointUnion(a: set<PageLink>, b: set<PageLink>)
    requires a !! b
    ensures multiset(a + b) == multiset(a) + multiset(b)
  {
    forall p
      ensures multiset(a + b)[p] == (multiset(a) + multiset(b))[p]
    {
    }
  }

  /** The kept records from `lo` on are the one at `lo`, if kept, and those from `lo + 1` on. */
  lemma MatchingFromStep(s: Store, f: Filter, lo: int)
    requires Valid(s)
    ensures lo in s.links && Matches(f, s.links[lo]) ==>
      MatchingFrom(s, f, lo) == {s.links[lo]} + MatchingFrom(s, f, lo + 1)
      && s.links[lo] !in MatchingFrom(s, f, lo + 1)
    ensures !(lo in s.links && Matches(f, s.links[lo])) ==>
      MatchingFrom(s, f, lo) == MatchingFrom(s, f, lo + 1)
  {
    var rest := MatchingFrom(s, f, lo + 1);
    forall p | p in rest
      ensures p.id >= lo + 1
    {
      var id :| id in s.links && lo + 1 <= id && Matches(f, s.links[id]) && s.links[id] == p;
    }
  }

  /** Scanning from `lo` yields exactly the kept records whose id is at least `lo`. */
  lemma {:induction false} ScanIsMatchingFrom(s: Store, f: Filter, lo: int)
    requires Valid(s)
    ensures multiset(Scan(s, f, lo)) == multiset(MatchingFrom(s, f, lo))
    decreases s.nextId - lo
  {
    if lo >= s.nextId {
      assert MatchingFrom(s, f, lo) == {};
    } else {
      ScanIsMatchingFrom(s, f, lo + 1);
      MatchingFromStep(s, f, lo);
      if lo in s.links && Matches(f, s.links[lo]) {
        MultisetOfDisjointUnion({s.links[lo]}, MatchingFrom(s, f, lo + 1));
      }
    }
  }

  /** A full scan finds exactly the kept records. */
  lemma ScanIsMatching(s: Store, f: Filter)
    requires Valid(s)
    ensures ExactlyMatching(s, f, Scan(s, f, 1))
  {
    ScanIsMatchingFrom(s, f, 1);
    assert MatchingFrom(s, f, 1) == Matching(s, f);
  }

  /** The records a filter keeps, by membership. */
  lemma MatchingMembers(s: Store, f: Filter, p: PageLink)
    requires Valid(s)
    ensures p in Matching(s, f) <==> Stored(s, p) && Matches(f, p)
  {
    if Stored(s, p) && Matches(f, p) {
      assert p == s.links[p.id];
    }
  }

  /** What an exact result means record by record: it holds a record exactly
      when the record is stored and kept by the filter, and no record twice. */
  lemma ExactlyMatchingMeans(s: Store, f: Filter, r: seq<PageLink>)
    requires Valid(s) && ExactlyMatching(s, f, r)
    ensures forall p :: p in r <==> Stored(s, p) && Matches(f, p)
    ensures forall i, j :: 0 <= i < j < |r| ==> r[i].id != r[j].id
  {
    forall p
      ensures p in r <==> Stored(s, p) && Matches(f, p)
    {
      assert p in r <==> p in multiset(r);
      MatchingMembers(s, f, p);
    }
    forall i, j | 0 <= i < j < |r|
      ensures r[i].id != r[j].id
    {
      assert r[i] in multiset(r) && r[j] in multiset(r);
      MatchingMembers(s, f, r[i]);
      MatchingMembers(s, f, r[j]);
      assert r == r[..j] + r[j..];
      assert r[i] in multiset(r[..j]) && r[j] in multiset(r[j..]);
      assert r[i].id == r[j].id ==> multiset(r)[r[i]] >= 2;
    }
  }

  /** The kept records in order `o`. */
  function Query(s: Store, f: Filter, o: Order): (r: seq<PageLink>)
    requires Valid(s)
    ensures ExactlyMatching(s, f, r)
    ensures Sorted(o, r)
  {
    ScanIsMatching(s, f);
    Sort(o, Scan(s, f, 1))
  }

  // ---------------------------------------------------------------------------
  // Queries

  /** `GetAllAsync`: every active link, newest first. */
  function GetAll(s: Store): (r: seq<PageLink>)
    requires Valid(s)
    ensures ExactlyMatching(s, AnyActive, r)
    ensures Sorted(CreatedNewestFirst, r)
  {
    Query(s, AnyActive, CreatedNewestFirst)
  }

  /** `GetByCategoryAsync`: the active links of one category, newest first. */
  function GetByCategory(s: Store, category: string): (r: seq<PageLink>)
    requires Valid(s)
    ensures ExactlyMatching(s, ActiveInCategory(category), r)
    ensures Sorted(CreatedNewestFirst, r)
  {
    Query(s, ActiveInCategory(category), CreatedNewestFirst)
  }

  /** `GetByStatusAsync`: the active links with one status, most recently checked first. */
  function GetByStatus(s: Store, status: string): (r: seq<PageLink>)
    requires Valid(s)
    ensures ExactlyMatching(s, ActiveWithStatus(status), r)
    ensures Sorted(CheckedNewestFirst, r)
  {
    Query(s, ActiveWithStatus(status), CheckedNewestFirst)
  }

  /** The hour count used when the caller gives none. */
  const DefaultHoursThreshold: int := 24

  /** `DateTime.UtcNow.AddHours(-hoursThreshold)`. */
  function DueThreshold(now: Time, hoursThreshold: int): Time {
    now - hoursThreshold * TicksPerHour
  }

  /** Every record of an exact result passes the filter. */
  lemma ExactlyMatchingElements(s: Store, f: Filter, r: seq<PageLink>)
    requires Valid(s) && ExactlyMatching(s, f, r)
    ensures forall k :: 0 <= k < |r| ==> Stored(s, r[k]) && Matches(f, r[k])
  {
    ExactlyMatchingMeans(s, f, r);
    assert forall k :: 0 <= k < |r| ==> r[k] in r;
  }

  /** `GetLinksNeedingCheckAsync`: the active links never checked or last
      checked before `now` minus `hoursThreshold` hours, least recently
      checked (never checked) first. */
  function GetLinksNeedingCheck(s: Store, now: Time, hoursThreshold: int := DefaultHoursThreshold): (r: seq<PageLink>)
    requires Valid(s)
    ensures ExactlyMatching(s, ActiveCheckedBefore(DueThreshold(now, hoursThreshold)), r)
    ensures Sorted(CheckedOldestFirst, r)
    ensures forall k :: 0 <= k < |r| ==>
      r[k].lastCheckedAt.None? || r[k].lastCheckedAt.value < DueThreshold(now, hoursThreshold)
  {
    var f := ActiveCheckedBefore(DueThreshold(now, hoursThreshold));
    var r := Query(s, f, CheckedOldestFirst);
    ExactlyMatchingElements(s, f, r);
    r
  }

  /** The first element of a result, `FirstOrDefaultAsync`. */
  function FirstOrDefault(r: seq<PageLink>): Option<PageLink> {
    if |r| == 0 then None else Some(r[0])
  }

  /** `GetByIdAsync`: the record with this id, unless it is soft-deleted. */
  function GetById(s: Store, id: int): (r: Option<PageLink>)
    requires Valid(s)
    ensures r.Some? ==> Stored(s, r.value) && r.value.id == id && r.value.isActive
    ensures r.None? <==> !(id in s.links && s.links[id].isActive)
  {
    var r := FirstOrDefault(Scan(s, ActiveWithId(id), 1));
    LookupSpec(s, ActiveWithId(id));
    r
  }

  /** `GetByUrlAsync`: an active record with this URL (the lowest id, if the
      URL was made to repeat by an update), or none. */
  function GetByUrl(s: Store, url: string): (r: Option<PageLink>)
    requires Valid(s)
    ensures r.Some? ==> Stored(s, r.value) && r.value.url == url && r.value.isActive
    ensures r.None? <==> forall id :: id in s.links ==> !(s.links[id].url == url && s.links[id].isActive)
  {
    var r := FirstOrDefault(Scan(s, ActiveWithUrl(url), 1));
    LookupSpec(s, ActiveWithUrl(url));
    r
  }

  lemma LookupSpec(s: Store, f: Filter)
    requires Valid(s)
    ensures var r := FirstOrDefault(Scan(s, f, 1));
      && (r.Some? ==> Stored(s, r.value) && Matches(f, r.value))
      && (r.None? <==> forall id :: id in s.links ==> !Matches(f, s.links[id]))
  {
    ScanIsMatching(s, f);
    ExactlyMatchingMeans(s, f, Scan(s, f, 1));
    if |Scan(s, f, 1)| > 0 {
      assert Scan(s, f, 1)[0] in Scan(s, f, 1);
    }
  }

  // ---------------------------------------------------------------------------
  // Commands

  /** `AddAsync`: refused when an active link already has the URL; otherwise
      the link is stored under the next identity, created now and active. */
  function Add(s: Store, link: PageLink, now: Time): (r: Result<(Store, PageLink), StoreError>)
    requires Valid(s)
    ensures r.Err? <==> exists id :: id in s.links && s.links[id].url == link.url && s.links[id].isActive
    ensures r.Err? ==> r.error == DuplicateUrl(link.url)
    ensures r.Ok? ==>
      var (s', p) := r.value;
      && Valid(s')
      && p.id !in s.links && s'.links == s.links[p.id := p]
      && p == link.(id := p.id, createdAt := now, isActive := true)
  {
    if GetByUrl(s, link.url).Some? then
      Err(DuplicateUrl(link.url))
    else
      var p := link.(id := s.nextId, createdAt := now, isActive := true);
      Ok((Store(s.links[p.id := p], s.nextId + 1), p))
  }

  /** The ten fields `UpdateAsync` copies from the caller's record. */
  function CopyEditableFields(existing: PageLink, from: PageLink): PageLink {
    existing.(
      url := from.url,
      title := from.title,
      description := from.description,
      status := from.status,
      httpStatusCode := from.httpStatusCode,
      responseTimeMs := from.responseTimeMs,
      lastCheckedAt := from.lastCheckedAt,
      errorMessage := from.errorMessage,
      category := from.category,
      notes := from.notes)
  }

  /** `UpdateAsync`: refused for an unknown id; otherwise the stored record
      takes every field of `link` except its id, creation time and active
      flag. Soft-deleted records are found too. */
  function Update(s: Store, link: PageLink): (r: Result<(Store, PageLink), StoreError>)
    requires Valid(s)
    ensures r.Err? <==> link.id !in s.links
    ensures r.Err? ==> r.error == NotFound(link.id)
    ensures r.Ok? ==>
      var (s', p) := r.value;
      var stored := s.links[link.id];
      && Valid(s') && s'.nextId == s.nextId
      && s'.links == s.links[link.id := p]
      && p.id == stored.id && p.createdAt == stored.createdAt && p.isActive == stored.isActive
      && p == link.(id := stored.id, createdAt := stored.createdAt, isActive := stored.isActive)
  {
    if link.id !in s.links then
      Err(NotFound(link.id))
    else
      var p := CopyEditableFields(s.links[link.id], link);
      Ok((Store(s.links[link.id := p], s.nextId), p))
  }

  /** `DeleteAsync`: refused for an unknown id; otherwise the record stays
      in the table, marked inactive, and nothing else changes. */
  function Delete(s: Store, id: int): (r: Result<Store, StoreError>)
    requires Valid(s)
    ensures r.Err? <==> id !in s.links
    ensures r.Err? ==> r.error == NotFound(id)
    ensures r.Ok? ==>
      && Valid(r.value) && r.value.nextId == s.nextId
      && r.value.links.Keys == s.links.Keys
      && r.value.links[id] == s.links[id].(isActive := false)
      && forall other :: other in s.links && other != id ==> r.value.links[other] == s.links[other]
  {
    if id !in s.links then
      Err(NotFound(id))
    else
      Ok(Store(s.links[id := s.links[id].(isActive := false)], s.nextId))
  }

  // ---------------------------------------------------------------------------
  // Properties across operations

  /** A link just added is what `GetByIdAsync` and `GetByUrlAsync` return. */
  lemma AddThenFind(s: Store, link: PageLink, now: Time)
    requires Valid(s)
    requires Add(s, link, now).Ok?
    ensures var (s', p) := Add(s, link, now).value;
      && GetById(s', p.id) == Some(p)
      && GetByUrl(s', link.url) == Some(p)
      && p in GetAll(s')
  {
    var (s', p) := Add(s, link, now).value;
    assert Stored(s', p) && Matches(AnyActive, p);
    ExactlyMatchingMeans(s', AnyActive, GetAll(s'));
    assert s'.links[p.id] == p;
  }

  /** A refused add leaves the store as it was: the caller keeps `s`. A
      duplicate among active links is what refuses it, so re-adding the URL
      of a soft-deleted link is accepted. */
  lemma AddDuplicateRefused(s: Store, link: PageLink, now: Time, existing: int)
    requires Valid(s) && existing in s.links
    requires s.links[existing].url == link.url
    ensures s.links[existing].isActive ==> Add(s, link, now) == Err(DuplicateUrl(link.url))
    ensures (forall id :: id in s.links && s.links[id].url == link.url ==> !s.links[id].isActive) ==>
      Add(s, link, now).Ok?
  {
  }

  /** After a delete the record is still stored, inactive, but no query
      returns it. */
  lemma DeleteHides(s: Store, id: int)
    requires Valid(s) && id in s.links
    ensures var s' := Delete(s, id).value;
      && id in s'.links && !s'.links[id].isActive
      && GetById(s', id).None?
      && (forall p :: p in GetAll(s') ==> p.id != id)
  {
    var s' := Delete(s, id).value;
    ExactlyMatchingMeans(s', AnyActive, GetAll(s'));
  }

  /** Deleting twice is deleting once: the second delete succeeds and changes nothing. */
  lemma DeleteIdempotent(s: Store, id: int)
    requires Valid(s) && id in s.links
    ensures Delete(Delete(s, id).value, id) == Delete(s, id)
  {
    var s' := Delete(s, id).value;
    assert s'.links[id].(isActive := false) == s'.links[id];
    assert s'.links[id := s'.links[id]] == s'.links;
  }

  /** An update of a soft-deleted record succeeds and leaves it deleted. */
  lemma UpdateKeepsDeleted(s: Store, link: PageLink)
    requires Valid(s) && link.id in s.links && !s.links[link.id].isActive
    ensures Update(s, link).Ok?
    ensures var (s', _) := Update(s, link).value; GetById(s', link.id).None?
  {
  }

  /** Ids are never removed and a record's creation time never changes,
      whatever add, update or delete does. */
  lemma RecordsPersist(s: Store, link: PageLink, now: Time, id: int)
    requires Valid(s)
    ensures Add(s, link, now).Ok? ==> var s' := Add(s, link, now).value.0;
      forall k :: k in s.links ==> k in s'.links && s'.links[k].createdAt == s.links[k].createdAt
    ensures Update(s, link).Ok? ==> var s' := Update(s, link).value.0;
      forall k :: k in s.links ==> k in s'.links && s'.links[k].createdAt == s.links[k].createdAt
    ensures Delete(s, id).Ok? ==> var s' := Delete(s, id).value;
      forall k :: k in s.links ==> k in s'.links && s'.links[k].createdAt == s.links[k].createdAt
  {
  }

  /** Writing a probed link back with `UpdateAsync` stores exactly the probed
      record: the checker leaves the id, creation time and active flag alone,
      and the update copies every other field. */
  lemma CheckedLinkStored(s: Store, id: int, outcome: HealthChecker.ProbeOutcome, elapsedMs: nat, startedAt: Time)
    requires Valid(s) && id in s.links
    ensures var p := HealthChecker.CheckAndUpdate(s.links[id], outcome, elapsedMs, startedAt);
      && Update(s, p).Ok?
      && Update(s, p).value.1 == p
      && Update(s, p).value.0.links == s.links[id := p]
  {
  }
}
