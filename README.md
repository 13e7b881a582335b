# Advertisement controller: paging, lookup and owner-or-admin deletion

This project models the request-decision logic of the advertisement controller in a
classifieds marketplace backend (`Controllers/AdvertisementController.cs`). It covers
three actions:

- **Search** (`POST /advertisements/search`). The advertisement service returns the
  advertisements that match the filter and category. The controller counts them. It
  computes the page count as the ceiling of records over page size. It cuts out the
  requested page with LINQ `Skip((pageNumber - 1) * pageSize).Take(pageSize)`, and
  answers 200 with a paged envelope that echoes the page number and page size.
- **Lookup by id** (`GET /advertisements/{id}`). A missing advertisement gives 404 with
  the payload ("Advertisement not found.", "Advertisement may be not active or is
  deleted."). A present one gives 200 with that record.
- **Delete** (`DELETE /advertisements/delete/{id}`). A missing caller or a missing
  advertisement gives 404. A caller who is neither the owner nor at or above the Admin
  role gives 401. Otherwise the advertisement is removed from the store and the answer
  is 200.

Modules:

- `Domain` (domain.dfy): the entities (`User`, `Advertisement`, `ErrorResponse`), the
  `Response` of a controller action with its status code, and the store lookups.
  Advertisements are a sequence whose ids are unique (the primary key). Users are a map
  keyed by id.
- `Paging` (paging.dfy): LINQ `Skip`/`Take`, the ceiling page count, the page envelope
  and its properties. It also holds the 32-bit model of the offset behind the finding below.
- `Controllers` (controller.dfy): the three actions. Search and lookup are functions.
  Deletion is a method of the class `AdvertisementController`, whose fields are the
  shared store of advertisements and users.

Modelling choices:

- The advertisement service's implementation is not part of this model. Its search is
  the input sequence `matching`. Its lookup by id is the first advertisement in the
  store carrying that id.
- The id of the calling user, which the source reads from the request context, is a
  parameter of the delete method.
- `UserRole` is an ordered enumeration whose declaration is not part of this model. A
  role is its ordinal (`Domain.Role`) and is compared by order. `Domain.Admin` stands
  for the ordinal of `UserRole.Admin`. No proof depends on its value.
- The source computes the page count in floating point, as `(int)Math.Ceiling((double)total / pageSize)`.
  For `pageSize >= 1` and counts that fit in 32 bits, that is exactly the integer ceiling,
  which the model uses.
- LINQ `Skip` with a count below one skips nothing. `Take` with a count below one takes
  nothing. So, when the offset fits in 32 bits, a page number of zero or less serves the
  first page (`Paging.NonPositivePageIsFirst`). When it does not, the wrapped offset decides
  (see Findings).

## Model

| member | source | states |
|---|---|---|
| `Controllers.SearchAdvertisements` | Controllers/AdvertisementController.cs:27-49 | search always answers 200 (Ok) with the paged envelope of the matching advertisements |
| `Paging.Page` | Controllers/AdvertisementController.cs:32-46 | the envelope echoes pageNumber and pageSize; the record count is the length of the matching sequence; the page count is the ceiling; for pageNumber >= 1 the results are the contiguous, order-preserving window from offset (pageNumber-1)*pageSize, at most pageSize long, cut off at the end; for pageNumber <= 0 they are the first page |
| `Paging.PageCount` | Controllers/AdvertisementController.cs:33 | the page count is the integer ceiling of total over pageSize: (pages-1)*pageSize < total <= pages*pageSize, and it is 0 exactly when there are no records |
| `Paging.PageCountUnique` | Controllers/AdvertisementController.cs:33 | any count k meeting (k-1)*pageSize < total <= k*pageSize is the page count, so the ceiling property determines the page count |
| `Paging.Skip` | Controllers/AdvertisementController.cs:36 | Skip drops the first count elements, none when count is not positive, all when count reaches the length |
| `Paging.Take` | Controllers/AdvertisementController.cs:37 | Take keeps the first count elements, none when count is not positive, all when count reaches the length |
| `Paging.Clamp` | Controllers/AdvertisementController.cs:36-37 | the count LINQ actually uses: negative counts become zero and counts beyond the length become the length |
| `Paging.TakeAfterSkip` | Controllers/AdvertisementController.cs:35-37 | Skip then Take selects the window [offset, offset+count) of the sequence for a non-negative offset, and the first count elements for a non-positive one |
| `Paging.PageWithinBounds` | Controllers/AdvertisementController.cs:35-37 | a page never holds more than pageSize records, and every record on it is one of the matching records |
| `Paging.PageLength` | Controllers/AdvertisementController.cs:35-37 | for pageNumber >= 1 a page holds min(pageSize, total - offset) records, and none when the offset reaches the total |
| `Paging.PageEmptyIff` | Controllers/AdvertisementController.cs:33-37 | for pageNumber >= 1 a page is empty exactly when its number exceeds the page count (both directions) |
| `Paging.NonPositivePageIsFirst` | Controllers/AdvertisementController.cs:36 | with the exact offset, a page number of 0 or less yields the same results as page 1 (the source does so when the offset fits in 32 bits) |
| `Paging.FirstPagesArePrefix` | Controllers/AdvertisementController.cs:35-37 | pages 1 to k concatenated are exactly the first k*pageSize matching records, in order |
| `Paging.AllPagesAreWhole` | Controllers/AdvertisementController.cs:33-37 | pages 1 to the page count concatenated are exactly the matching sequence: paging loses nothing, repeats nothing and keeps the order |
| `Paging.PageAt` | Controllers/AdvertisementController.cs:35-37 | position j of page pageNumber holds record offset + j |
| `Paging.RecordOnItsPage` | Controllers/AdvertisementController.cs:35-37 | record i is on page i / pageSize + 1, at position i % pageSize |
| `Paging.SearchSecondPageOfTwentyFive` | Controllers/AdvertisementController.cs:32-46 | with 25 matching records, page 2 of size 10 reports 3 pages and 25 records, and holds records 11 to 20 |
| `Paging.Wrap32` | Controllers/AdvertisementController.cs:36 | two's-complement truncation to 32 bits: the result is a 32-bit value congruent to the input modulo 2^32, and is the input itself when that already fits |
| `Paging.PageAsWritten` | Controllers/AdvertisementController.cs:32-46 | the envelope with the offset computed in wrapping 32-bit arithmetic agrees with the exact model whenever the offset fits in 32 bits |
| `Paging.Offset` | Controllers/AdvertisementController.cs:36 | the Skip count (pageNumber-1)*pageSize: non-negative from page 1 on, at most -pageSize below page 1, and each page starts a whole pageSize after the one before (offset + pageSize == pageNumber*pageSize) |
| `Paging.WrappedOffsetEmptiesNonPositivePage` | Controllers/AdvertisementController.cs:36 | for page -0x40000000 of size 2 the wrapped offset is 0x7FFFFFFE, so Skip drops every record and the page is empty, while the exact model serves the non-empty first page |
| `Paging.WrappedOffsetServesFirstPage` | Controllers/AdvertisementController.cs:36 | for page 0x40000001 of size 4 the wrapped offset is 0, so the first page comes back although the page lies past the page count; the exact model gives an empty page |
| `Domain.Response.StatusCode` | Controllers/AdvertisementController.cs:48-135 | the HTTP status of an answer: 200 exactly for Ok (lines 48, 62, 135), 404 exactly for NotFound (lines 59, 125), 401 exactly for Unauthorized (line 130) |
| `Controllers.GetAdvertisementById` | Controllers/AdvertisementController.cs:53-63 | never answers 401; 404 with ("Advertisement not found.", "Advertisement may be not active or is deleted.") exactly when no stored advertisement has the id; otherwise 200 with a stored advertisement carrying that id |
| `Controllers.GetStoredAdvertisement` | Controllers/AdvertisementController.cs:55-62 | in a store keyed by id, looking up a stored advertisement answers Ok with exactly that advertisement |
| `Domain.IndexOfId` | Controllers/AdvertisementController.cs:121 | the lookup finds the first position whose advertisement has the id, and none exactly when no advertisement has it |
| `Domain.FindAdvertisement` | Controllers/AdvertisementController.cs:55 | the advertisement service's lookup: none exactly when no stored advertisement has the id, otherwise a stored advertisement carrying it |
| `Domain.FindUnique` | Controllers/AdvertisementController.cs:121 | in a store with unique ids, the lookup of a stored advertisement's id returns that advertisement |
| `Domain.GetUserById` | Services/UserService.cs:15-18 | the user lookup returns the user stored under the id, and none exactly when the id is absent; that user carries that id |
| `Domain.RemoveAt` | Controllers/AdvertisementController.cs:133 | the store after removing one advertisement: one shorter, everything before it and after it kept in order |
| `Domain.RemoveAtKeepsOthers` | Controllers/AdvertisementController.cs:133 | removing an advertisement from a store with unique ids keeps the ids unique and keeps exactly the advertisements with another id |
| `Controllers.DeleteOutcome` | Controllers/AdvertisementController.cs:118-136 | the delete answer is 404 (bare, without a payload) exactly when the caller is not a user or no stored advertisement has the id; a 401 goes only to a stored user below Admin; the status codes are 404, 401 and 200 |
| `Controllers.OwnerMayDelete` | Controllers/AdvertisementController.cs:128 | the owner of a stored advertisement always gets Ok |
| `Controllers.AdminMayDelete` | Controllers/AdvertisementController.cs:128 | a user whose role is at or above Admin gets Ok for any stored advertisement |
| `Controllers.OthersMayNotDelete` | Controllers/AdvertisementController.cs:128-131 | a user who is neither the owner nor at or above Admin gets Unauthorized; together with the two lemmas above this characterises the non-404 answers |
| `Controllers.AdvertisementController.constructor` | Controllers/AdvertisementController.cs:19-25 | the controller starts over a store with unique advertisement ids and users keyed by id |
| `Controllers.AdvertisementController.DeleteAdvertisement` | Controllers/AdvertisementController.cs:118-136 | answers as DeleteOutcome; on 404 or 401 the store is unchanged; on Ok exactly the advertisement at the found position is removed (the store is one shorter, keeps every advertisement with another id in order, and keeps its ids unique); the users are never changed |

## Findings

| source | as written | input that shows it | evidently intended | confidence | as-written member | corrected member |
|---|---|---|---|---|---|---|
| Controllers/AdvertisementController.cs:36 | the offset `(PageNumber - 1) * PageSize` is computed in 32-bit `int` arithmetic, which wraps around on overflow in C#'s default unchecked context, for large and for negative page numbers alike | pageNumber = 1073741825 (0x40000001), pageSize = 4, at least one matching record: the offset 2^32 wraps to 0 and the first page is returned. pageNumber = -1073741824 (-0x40000000), pageSize = 2, between 1 and 2147483645 matching records: the offset -2147483650 wraps to 2147483646, Skip drops every record and the page is empty | a page past the page count is empty, and a page number below 1 serves the first page (exact offset, for instance computed in 64 bits); proved as `Paging.PageEmptyIff` and `Paging.NonPositivePageIsFirst` | medium, not executed | `Paging.PageAsWritten` (with `Paging.WrappedOffsetServesFirstPage` and `Paging.WrappedOffsetEmptiesNonPositivePage`) | `Paging.Page` |

## Left out

- `CreateAdvertisement` (Controllers/AdvertisementController.cs:65-113): a sequence of asynchronous persistence and media-upload calls to a provider that is not part of this model, under a blanket exception handler. It holds no decision logic beyond calling them in order. The null tests at lines 87 and 102 always have the same outcome, because a freshly constructed object is never null.
- Filter semantics of the search (Controllers/AdvertisementController.cs:30): the advertisement service is not part of this model, so its result is an input sequence.
- Paging.Page: requires pageSize >= 1. With pageSize 0 the source divides a double by zero and casts Infinity or NaN to int, which is floating-point behaviour with no meaningful result. A negative page size is also excluded.
- Controllers.SearchAdvertisements: requires pageSize >= 1, for the same reason as Paging.Page.
- Paging.Page: counts the offset without 32-bit wrap-around. The wrapped behaviour is modelled separately in `Paging.PageAsWritten` (see Findings).
- Domain.Admin: the ordinal of `UserRole.Admin` is a placeholder, because the enumeration is not part of this model. The proofs hold for any value.
- Whatever the persistence layer does to an advertisement's media files when `_advertisements.DeleteAdvertisement` runs (Controllers/AdvertisementController.cs:133) is not shown in the source and is not modelled.
- Services/UserService.cs is not modelled beyond the lookup by id. Its other methods pass straight through to the ORM.
- Middlewares/UserAuthentication.cs is not modelled. It is per-request plumbing, and the controller's read of `Items["UserId"]` is replaced by an explicit caller id.
- Entities/Category.cs is not modelled. It is a declarative mapping with no behaviour.
- HTTP routing, `[Authorize]` attributes, `ModelState` validation, asynchronous I/O and concurrent requests are not modelled. Each action is one atomic step on the store.
