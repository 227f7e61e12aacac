# LinkManager health checking and link store, in Dafny

LinkManager keeps a collection of bookmarked URLs ("page links"). For each
link it records liveness data: HTTP status, response time, and the title and
description extracted from the page. It gets this data by probing the URL.
This project models the parts of the system that make decisions:

- **The page link record** (`PageLinks`). It covers the defaults of a new
  record, its length and required-field constraints, and the five
  `LinkStatus` strings.
- **The health checker** (`HealthChecker`). It covers:
  - how one probe's outcome becomes a `HealthCheckResult` (a 2xx response, any
    other response, a timeout, a network error, another exception, and a
    failure while reading a 2xx body);
  - the title and description extraction with its Open Graph fallbacks;
  - the five-way status classifier;
  - the update that writes a result onto a link.
- **The link store** (`PageLinkRepository`). It is a map from id to record,
  with an identity counter. It covers add with the duplicate-URL refusal,
  update as a copy of ten fields, soft delete, and the filtered, ordered
  queries over active records.

Supporting modules:
- `Text` models the .NET string operations the code relies on: `Trim`, ordinal
  `Contains`, decimal rendering of an int, and `string.Length` in UTF-16
  units.
- `LinkOrder` models the three orderings the queries use, together with a
  sort that realises them.
- `Wrappers` holds `Option` and `Result`.

The HTTP exchange, the stopwatch and the clock are inputs:
- a `ProbeOutcome` value;
- the elapsed milliseconds;
- the tick count of "now", where one hour is 36,000,000,000 ticks.

The parsed HTML document is a sequence of abstract nodes in document order:
`<title>`, `<meta>`, and every other element.

Behaviour of the code that the model follows:

- `CheckedAt` is the moment the result object is created. That happens at
  the top of `CheckHealthAsync`, before the request is sent, so
  `LastCheckedAt` records when the probe *started*, not when it completed.
- The classifier decides "Timeout" by looking for that substring in the error
  message. So a non-2xx response whose reason phrase contains "Timeout"
  (408 Request Timeout, 504 Gateway Timeout) is classified `Timeout`, not
  `Offline` (`HttpFailureStatus`). The same goes for a network or other
  failure whose exception message contains "Timeout" (`FailedStatus`).
- A 2xx response whose body cannot be read falls into the catch clauses
  after the status code was recorded. The result is unhealthy but keeps its
  2xx code (`BodyReadFailureStatus`).
- The classifier's `Error` branch (healthy with a code of 400 or more) cannot
  be reached from a probe, because a result is healthy only with a 2xx code
  (`ProbeNeverError`). The branch is modelled as written.
- `UpdateAsync` finds soft-deleted records too, and leaves them deleted
  (`UpdateKeepsDeleted`).
- `AddAsync` checks for a duplicate URL among *active* records only, so
  re-adding the URL of a deleted link passes the application check
  (`AddDuplicateRefused`). The database's unique index on `Url` then refuses
  it when the change is saved (see "## Left out").
- A blank first `<title>` with no `og:title` gives the title `""`, not null,
  and the updater then keeps the stored title (`BlankTitleWithoutOgTitle`).
  The description behaves the same way.

## Model

| member | source | states |
|---|---|---|
| Text.Trim | LinkManager.Web/BLL/HealthCheckerService.cs:140 | the trimmed text is no longer than the input and neither starts nor ends with white space |
| Text.TrimIsSlice | LinkManager.Web/BLL/HealthCheckerService.cs:140 | what `Trim` keeps is one contiguous slice of the input, and everything it drops on either side is white space |
| Text.TrimEmptyIffBlank | LinkManager.Web/BLL/HealthCheckerService.cs:150-155 | a text trims to the empty string exactly when it is made only of white space |
| Text.TrimIdempotent | LinkManager.Web/BLL/HealthCheckerService.cs:140 | trimming an already trimmed text changes nothing |
| Text.ContainsAt | LinkManager.Web/BLL/HealthCheckerService.cs:191 | an occurrence of the pattern at any position makes `Contains` true |
| Text.ContainsWitness | LinkManager.Web/BLL/HealthCheckerService.cs:191 | when `Contains` holds, there is a position where the pattern occurs |
| Text.ContainsAfterPrefix | LinkManager.Web/BLL/HealthCheckerService.cs:191 | a prefix that lacks a character of the pattern and ends outside it neither creates nor hides an occurrence |
| Text.Decimal | LinkManager.Web/BLL/HealthCheckerService.cs:60 | the interpolated rendering of a code is non-empty, all digits, has no leading zero and denotes the code |
| Text.Utf16Length | LinkManager.Web/Models/PageLink.cs:22 | the length in UTF-16 units is between the character count and twice it, and equals the count for BMP-only text |
| PageLinks.ParseStatus | LinkManager.Web/Models/PageLink.cs:92-99 | a string reads back as a status only if it is that status's constant |
| PageLinks.StatusesAreFive | LinkManager.Web/Models/PageLink.cs:92-99 | there are exactly five statuses, their names are pairwise distinct, and each name reads back as its status |
| PageLinks.NewPageLink | LinkManager.Web/Models/PageLink.cs:9-87 | a new record is `Pending`, active, created now, has an empty URL, and every optional field is null |
| PageLinks.ValidBounds | LinkManager.Web/Models/PageLink.cs:20-81 | a valid record has a URL of 1..2000 characters and a status of 1..50, and title ≤ 500, description ≤ 1000, error ≤ 1000, category ≤ 100 and notes ≤ 2000 when present |
| PageLinks.StatusNameFits | LinkManager.Web/Models/PageLink.cs:40-42 | every status constant satisfies the `[Required]` and `[MaxLength(50)]` constraints of `Status` |
| PageLinks.NewPageLinkValidIff | LinkManager.Web/Models/PageLink.cs:20-23 | a new record given a URL is valid exactly when that URL is non-blank and at most 2000 units long |
| PageLinks.NewPageLinkNeedsUrl | LinkManager.Web/Models/PageLink.cs:20-23 | the default record itself fails validation, because its URL is empty |
| HealthChecker.SelectSingleNode | LinkManager.Web/BLL/HealthCheckerService.cs:137 | the result is the first node in document order the selector picks, and it is null exactly when no node matches |
| HealthChecker.SelectFindsFirstMatch | LinkManager.Web/BLL/HealthCheckerService.cs:137 | whichever node is the first match in document order is the one `SelectSingleNode` returns |
| HealthChecker.Pick | LinkManager.Web/BLL/HealthCheckerService.cs:137-150 | the value is the trimmed inner text or `content` of the first selected node (a missing `content` reading as empty), and it is absent exactly when nothing is selected |
| HealthChecker.ExtractMetadata | LinkManager.Web/BLL/HealthCheckerService.cs:129-182 | an unparseable document yields nothing; results are trimmed; the title is null exactly when there is neither `<title>` nor `og:title`, and likewise for the description with `description` and `og:description`; without an `og:title` the title is what the first `<title>` gives, and without an `og:description` the description is what the first description meta gives |
| HealthChecker.TitleFromTitleElement | LinkManager.Web/BLL/HealthCheckerService.cs:137-142 | a first `<title>` with visible text gives the title, whatever `og:title` holds |
| HealthChecker.TitleFromOgTitle | LinkManager.Web/BLL/HealthCheckerService.cs:166-176 | with no `<title>`, or a blank first one, the title is the trimmed content of the first `og:title` meta |
| HealthChecker.DescriptionFromNameMeta | LinkManager.Web/BLL/HealthCheckerService.cs:145-152 | a first `name="description"` meta with visible content gives the description, whatever `og:description` holds |
| HealthChecker.DescriptionFromOgDescription | LinkManager.Web/BLL/HealthCheckerService.cs:154-164 | with the description meta missing, without `content` or blank, the description is the trimmed content of the first `og:description` meta |
| HealthChecker.BlankTitleWithoutOgTitle | LinkManager.Web/BLL/HealthCheckerService.cs:137-142 | a blank first `<title>` and no `og:title` give the empty title, not null |
| HealthChecker.BlankDescriptionWithoutOgDescription | LinkManager.Web/BLL/HealthCheckerService.cs:145-164 | a blank or content-less first description meta and no `og:description` give the empty description, not null |
| HealthChecker.TimeoutMessageMentionsTimeout | LinkManager.Web/BLL/HealthCheckerService.cs:68 | the timeout message contains "Timeout" |
| HealthChecker.CheckHealth | LinkManager.Web/BLL/HealthCheckerService.cs:26-89 | healthy exactly for a 2xx response whose body was read; the code is present exactly when a response arrived; an error message exactly when unhealthy; metadata only when healthy; the message format for each failure kind; check time is the start time |
| HealthChecker.DetermineStatus | LinkManager.Web/BLL/HealthCheckerService.cs:187-209 | never `Pending`; `Timeout` iff unhealthy with a message mentioning "Timeout"; `Online` iff healthy with a 2xx code; `Error` iff healthy with a code ≥ 400; `Offline` otherwise |
| HealthChecker.SuccessIsOnline | LinkManager.Web/BLL/HealthCheckerService.cs:43-57 | a 2xx response whose body was read classifies as `Online` |
| HealthChecker.HttpFailureStatus | LinkManager.Web/BLL/HealthCheckerService.cs:58-61 | a non-2xx response classifies as `Timeout` iff its reason phrase contains "Timeout", and as `Offline` otherwise |
| HealthChecker.FailedStatus | LinkManager.Web/BLL/HealthCheckerService.cs:63-86 | a request that failed before a response classifies as `Timeout` for a timeout or for a failure message mentioning "Timeout", and as `Offline` otherwise |
| HealthChecker.BodyReadFailureStatus | LinkManager.Web/BLL/HealthCheckerService.cs:53-86 | a 2xx response whose body read failed classifies and reports exactly like the same failure before a response, but keeps its status code |
| HealthChecker.ProbeNeverError | LinkManager.Web/BLL/HealthCheckerService.cs:203-206 | no probe outcome leads to the `Error` status |
| HealthChecker.ApplyResult | LinkManager.Web/BLL/HealthCheckerService.cs:99-116 | code, response time, check time and error message are overwritten; title and description are replaced only by non-empty values; status is the classification; id, URL, creation time, category, notes and active flag are kept |
| HealthChecker.CheckAndUpdate | LinkManager.Web/BLL/HealthCheckerService.cs:94-124 | the link records the probe's start time and elapsed time, leaves `Pending`, keeps its identity fields, and keeps its title and description after an unsuccessful probe |
| HealthChecker.SuccessClearsError | LinkManager.Web/BLL/HealthCheckerService.cs:102 | a successful probe clears any earlier error message and sets `Online` |
| HealthChecker.ApplyResultIdempotent | LinkManager.Web/BLL/HealthCheckerService.cs:99-116 | writing the same result twice is the same as writing it once |
| HealthChecker.ApplyResultTwice | LinkManager.Web/BLL/HealthCheckerService.cs:104-113 | over two checks the newest non-empty title and description win, an older one is never erased by an empty one, and probe fields come from the later check |
| HealthChecker.RepeatedFailedCheck | LinkManager.Web/BLL/HealthCheckerService.cs:94-124 | two unsuccessful checks with the same outcome give the same status, the later check time is recorded, and title and description survive |
| HealthChecker.UpdatedStatusFits | LinkManager.Web/BLL/HealthCheckerService.cs:116 | the status the updater writes satisfies the `Status` column's constraints |
| LinkOrder.InOrderTotalPreorder | LinkManager.Web/DAL/PageLinkRepository.cs:157 | each ordering relates any two records one way or the other and is transitive; a never-checked record comes first when ordered by check time ascending and last when descending |
| LinkOrder.Insert | LinkManager.Web/DAL/PageLinkRepository.cs:175 | inserting into a sorted result keeps it sorted and adds exactly the one record |
| LinkOrder.Sort | LinkManager.Web/DAL/PageLinkRepository.cs:175 | the result is in the requested order and is a permutation of the input |
| PageLinkRepository.EmptyStoreValid | LinkManager.Web/Models/PageLink.cs:14-15 | the empty table satisfies the identity invariant |
| PageLinkRepository.ScanIsMatchingFrom | LinkManager.Web/DAL/PageLinkRepository.cs:30-31 | scanning from an id on yields each kept record with an id at least that, once |
| PageLinkRepository.ScanIsMatching | LinkManager.Web/DAL/PageLinkRepository.cs:30-31 | a full scan yields each record the filter keeps exactly once, and nothing else |
| PageLinkRepository.MatchingMembers | LinkManager.Web/DAL/PageLinkRepository.cs:30-31 | a record is among those a filter keeps exactly when it is stored and passes the filter |
| PageLinkRepository.ExactlyMatchingMeans | LinkManager.Web/DAL/PageLinkRepository.cs:30-31 | an exact result holds a record iff the record is stored and passes the filter, and never holds two records with the same id |
| PageLinkRepository.Query | LinkManager.Web/DAL/PageLinkRepository.cs:30-33 | a query returns exactly the records the filter keeps, in the requested order |
| PageLinkRepository.GetAll | LinkManager.Web/DAL/PageLinkRepository.cs:26-34 | exactly the active records, newest creation first |
| PageLinkRepository.GetByCategory | LinkManager.Web/DAL/PageLinkRepository.cs:138-146 | exactly the active records of that category, newest creation first |
| PageLinkRepository.GetByStatus | LinkManager.Web/DAL/PageLinkRepository.cs:151-159 | exactly the active records with that status, most recently checked first and never-checked last |
| PageLinkRepository.GetLinksNeedingCheck | LinkManager.Web/DAL/PageLinkRepository.cs:164-177 | exactly the active records never checked or last checked before now minus the threshold hours, oldest check (never checked) first |
| PageLinkRepository.GetById | LinkManager.Web/DAL/PageLinkRepository.cs:39-45 | the stored record with that id when it is active, and nothing exactly when the id is unknown or its record is deleted |
| PageLinkRepository.GetByUrl | LinkManager.Web/DAL/PageLinkRepository.cs:50-56 | a stored active record with that URL, and nothing exactly when no active record has it |
| PageLinkRepository.LookupSpec | LinkManager.Web/DAL/PageLinkRepository.cs:43-44 | the first record a filter keeps is stored and passes the filter, and there is none exactly when no stored record passes |
| PageLinkRepository.Add | LinkManager.Web/DAL/PageLinkRepository.cs:61-81 | refused with a duplicate-URL error exactly when an active record has the URL; otherwise the record is stored under a fresh id, created now and active, and nothing else changes |
| PageLinkRepository.Update | LinkManager.Web/DAL/PageLinkRepository.cs:86-113 | refused exactly for an unknown id; otherwise the stored record becomes the caller's record with the old id, creation time and active flag, and nothing else changes |
| PageLinkRepository.Delete | LinkManager.Web/DAL/PageLinkRepository.cs:118-133 | refused exactly for an unknown id; otherwise only that record's active flag is cleared, and it stays stored |
| PageLinkRepository.AddThenFind | LinkManager.Web/DAL/PageLinkRepository.cs:72-76 | a link just added is what the lookups by id and by URL return, and it is listed by `GetAll` |
| PageLinkRepository.AddDuplicateRefused | LinkManager.Web/DAL/PageLinkRepository.cs:65-70 | an active record with the same URL refuses the add; if only deleted records have it, the add succeeds |
| PageLinkRepository.DeleteHides | LinkManager.Web/DAL/PageLinkRepository.cs:128-129 | after a delete the record is still stored but inactive, and neither `GetById` nor `GetAll` returns it |
| PageLinkRepository.DeleteIdempotent | LinkManager.Web/DAL/PageLinkRepository.cs:122-130 | deleting twice succeeds and gives the same store as deleting once |
| PageLinkRepository.UpdateKeepsDeleted | LinkManager.Web/DAL/PageLinkRepository.cs:90-106 | updating a soft-deleted record succeeds and the record stays hidden from `GetById` |
| PageLinkRepository.RecordsPersist | LinkManager.Web/DAL/PageLinkRepository.cs:61-133 | add, update and delete never remove an id and never change a record's creation time |
| PageLinkRepository.CheckedLinkStored | LinkManager.Web/DAL/PageLinkRepository.cs:96-106 | writing a probed link back through update stores exactly the probed record |

## Left out

- The HTTP exchange (`HttpClient`, its 30-second timeout, `Stopwatch`) is left out because it is I/O. Its outcome and the elapsed milliseconds are inputs.
- The clock (`DateTime.UtcNow`) is left out. The current time is a parameter in ticks.
- HTML parsing and XPath evaluation (HtmlAgilityPack) are library code. The model takes the parsed node sequence as input, or `Unparseable` when parsing fails.
- ExtractMetadata: an exception thrown partway through extraction keeps whatever fields were set before it. The model has only a whole-document failure, which yields no metadata.
- Logging is left out throughout.
- EF Core persistence, `SaveChangesAsync`, async tasks, migrations and seed data are left out: they are plumbing, not decisions.
- Add: the database's unique index on `Url` covers every row, and a soft-deleted row keeps its URL. Re-adding the URL of a deleted link passes the application check, which is all the model has, and the database then refuses it on save. The model accepts it.
- Add: a record that arrives with a non-zero id is refused by the identity column on save. The model replaces its id with the next identity instead.
- Update: the database refuses the save when the new URL belongs to another row (unique index), or when a text exceeds its column width (title 500, description 1000, error message 1000, category 100, notes 2000, status 50, URL 2000 UTF-16 units). The model stores the record; its `Err` covers only the unknown id.
- CheckedLinkStored: holds in the model only. A probed title over 500 units or description over 1000 units makes the database refuse the save, because extraction does not truncate.
- The race between the duplicate check and the insert in `AddAsync` is a concurrency issue and is not modelled.
- The `[Url]` validator is library behaviour and is not modelled. `Valid` covers the required and length constraints only.
- SQL string comparison is not modelled: the model compares URLs, categories and statuses exactly, while the database's collation may ignore case and trailing spaces.
- GetByUrl: the model has no unique index, so an update can make several active records share a URL. The model then returns the one with the lowest id. In the database the index prevents such duplicates.
- Sort: the order among records with equal keys is unspecified in the database. The model's contract allows any order among ties.
- GetLinksNeedingCheck: `AddHours` throws when the threshold leaves the `DateTime` range. The model uses unbounded tick arithmetic instead.
- CheckHealth: the status code is an unbounded natural number, while .NET holds it in 0..999. Elapsed time is unbounded too.
- Length bounds are not enforced on the health-check path: extracted titles and descriptions are written without truncation, so no contract claims that the updater preserves `Valid`.
- `IHealthCheckerService.cs` and `IPageLinkRepository.cs` hold interfaces with no behaviour. Only the shape of `HealthCheckResult` is taken from them.
