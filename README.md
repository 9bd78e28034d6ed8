# Reactive CRUD controller — a Dafny model

This project models the generic reactive CRUD controller `RsRepositoryServiceV3Reactive` and the fruits resource built on it, `FruitServiceRs`.

The controller serves one entity type over an injected Hibernate Reactive `Mutiny.Session`. Its endpoints are persist, fetch, update, delete, exist, getListSize and getList. Each one is a chain of steps:

- overridable pre/post hooks;
- session calls (`find`, `persist`, `merge`, `remove`, `flush`);
- count and page reads on a `PanacheQuery`.

Any step may fail. The first failure skips every later step, and `handleFailures` turns it into the response:

- a `ReactiveException` keeps its own status and message;
- anything else becomes 400 with the failure's description.

The model also covers these parts of the code:

- the `orderBy` parser `sort`/`single`, which turns a text such as `name:asc,price:desc` into a Panache `Sort`;
- the paging arithmetic of `getItemsList`, modelled with Java's 32-bit `int` and truncating division;
- the not-found message;
- the fruit resource's default order `"name asc"`, its `getSearch` and its name-uniqueness `prePersist`.

Modules:

- `JavaText`: the `java.lang.String` operations the parser uses. These are `trim`, ASCII `toLowerCase`, `equalsIgnoreCase`, `contains`, `replace(t, "")` and `split(String)` with a one-char separator that is no regular-expression meta char, the last with Java's dropping of trailing empty pieces.
- `Failures`: statuses, failures (`Reactive` for a `ReactiveException`, `Unclassified` for any other throwable), responses, `HandleFailures` and the not-found failure.
- `OrderBy`:
  - `Single`, one clause;
  - `SingleAll`, the loop of `sort`, as a method;
  - `SortOf`, `sort` itself, as a method.
  
  Both methods are proved against `SortSpec`/`Expected`, a declarative statement of the result that does not use the fold. `OrderByFacts` and `OrderByExamples` prove properties of that statement and its worked examples.
- `Paging`: `Int32`/`Int64`, Java's `/` (`JavaDiv`), `Long.intValue()` (`IntValue`), the method `ItemsWindow` (the branch inside `getItemsList`), `Page.of`'s acceptance rule, and page slicing.
- `Store`:
  - the class `Session`: a table (`rows`) and a call log, with the invariant that the table is the replay of the log;
  - the class `Query`: a sort, filters attached in place, and a log of count/page reads.
  
  Database refusals are part of the configuration.
- `RepositoryService`:
  - the `Hooks` record;
  - one trace function per endpoint (`PersistTrace`, `FetchTrace`, …), giving the response, the calls made and the table left behind;
  - the class `Controller`, whose methods carry each endpoint out on a `Session` or `Query` and are proved to do exactly what the trace says.
- `RepositoryFacts`: a reference reading of the pipelines. `Chain` runs stages in order, stops at the first failure and maps it once. Each endpoint is proved to be an instance of `Chain`, the table each session endpoint leaves is the replay of its calls, and the endpoint-specific rules are proved one by one.
- `FruitResource`: the `Fruit` entity, `PrePersist`, the search filters, and the class `FruitService`, which wraps a `Controller<Fruit, string>`.

In a few places the code does not do what its names and comments suggest was intended. The model follows the code:

- **orderBy is not trimmed.** One would expect the orderBy text to be trimmed before parsing. The code only checks `trim().isEmpty()` and then lower-cases the untrimmed text. So `" name"` splits on the space into `["", "name"]` and fails as "sort is not usable" (`OrderByExamples.LeadingSpaceExample`).
- **Page index uses truncating division.** The page index reads as the page that holds row `startRow`, `floor(startRow / pageSize)`. Java's `/` truncates toward zero. A negative `startRow` within one page of zero therefore gives page 0, and a `startRow` further below zero gives a negative index that `Page.of` refuses (`Paging.NearNegativeStartRowIsPageZero`, `Paging.FarNegativeStartRowIsRefused`). So the page index is not always non-negative.
- **The default descriptor loses every "asc".** The evident aim is to strip a trailing direction word. The code removes every occurrence of `"asc"` (or, failing that, `"desc"`) anywhere in the text (`OrderByExamples.DefaultWithAsc`). A descriptor such as `"cascade desc"` therefore loses the "asc" inside "cascade" and sorts ascending.
- **A bad direction is not mapped to 400.** A bad direction word would be expected to come back as 400, like every other failure. `FruitServiceRs.getSearch` evaluates `sort(orderBy)` eagerly, before any `Uni` exists. The `RuntimeException` is therefore thrown out of `getList` and never reaches `handleFailures`. The model answers `Reply.Raised` (`FruitResource.FruitService.GetList`, `FruitResource.MalformedOrderByRaises`).
- **A duplicate name is a plain exception.** A uniqueness conflict would be expected to be a domain error carrying its own status. The code throws a plain `RuntimeException("Item already present in db")`, which `handleFailures` turns into 400 (`FruitResource.DuplicateNameRejected`).
- **A later bare clause re-sets every column.** The evident aim is to add a bare field after the first one descending. The code calls `sort.and(field).descending()`. Read with Panache's `Sort`, where `descending()` re-sets the direction of every column added so far, this turns every column before it descending too (`OrderByFacts.LaterBareClauseDescendsAll`).

## Model

| member | source | states |
|---|---|---|
| OrderBy.WithDirection | src/main/java/it/ness/api/service/RsRepositoryServiceV3Reactive.java:269-272 | ascending()/descending() give every column of the sort that direction, keeping the names and their order |
| OrderBy.SortOf | src/main/java/it/ness/api/service/RsRepositoryServiceV3Reactive.java:223-247 | sort(orderBy) returns exactly `SortSpec`: a non-blank orderBy is lower-cased and its comma-separated clauses folded through single (one clause when there is no comma); a null or blank one falls back to the default descriptor |
| OrderBy.SingleAll | src/main/java/it/ness/api/service/RsRepositoryServiceV3Reactive.java:229-233 | the for loop over the clauses, started from the null sort, yields `Expected(clauses)`: the failure of the first unusable clause, the null sort for no clause, else one column per clause in written order |
| OrderBy.Single | src/main/java/it/ness/api/service/RsRepositoryServiceV3Reactive.java:249-274 | single succeeds exactly when the clause is bare or its second piece is asc/desc, and otherwise fails with "sort is not usable"; on success it appends exactly one column named by the clause's field and keeps the earlier column names |
| OrderBy.SingleExtends | src/main/java/it/ness/api/service/RsRepositoryServiceV3Reactive.java:249-274 | one application of single to the columns of the clauses so far yields the columns of one more clause, directions re-set by later bare clauses included |
| OrderBy.SingleOfOne | src/main/java/it/ness/api/service/RsRepositoryServiceV3Reactive.java:234-236 | single(null, orderBy) on a comma-free orderBy is exactly the parse of that one clause |
| OrderBy.DefaultSort | src/main/java/it/ness/api/service/RsRepositoryServiceV3Reactive.java:239-246 | the default descriptor gives a sort exactly when it is non-blank and its lower case contains "asc" or "desc"; that sort has one column, ascending exactly when "asc" occurs |
| OrderByFacts.ColumnsInWrittenOrder | src/main/java/it/ness/api/service/RsRepositoryServiceV3Reactive.java:228-233 | a successful parse has one column per clause, in the order written, named by each clause's field |
| OrderByFacts.FailsIffUnusableClause | src/main/java/it/ness/api/service/RsRepositoryServiceV3Reactive.java:256-263 | the parse fails exactly when some clause has a second piece that is neither asc nor desc, and the failure is "sort is not usable" |
| OrderByFacts.WrittenDirectionsKept | src/main/java/it/ness/api/service/RsRepositoryServiceV3Reactive.java:256-267 | when every clause names its direction, every column has the field and direction written for it |
| OrderByFacts.LaterBareClauseDescendsAll | src/main/java/it/ness/api/service/RsRepositoryServiceV3Reactive.java:269-272 | a bare clause after the first turns its own column and every earlier one descending |
| OrderByFacts.FirstBareClauseAscends | src/main/java/it/ness/api/service/RsRepositoryServiceV3Reactive.java:270-272 | a bare clause that starts the sort is ascending |
| OrderByFacts.DefaultOnlyWhenBlank | src/main/java/it/ness/api/service/RsRepositoryServiceV3Reactive.java:226-244 | the default descriptor decides the result exactly for a null or blank orderBy; for any other orderBy it has no effect |
| OrderByFacts.TwoClausesExample | src/main/java/it/ness/api/service/RsRepositoryServiceV3Reactive.java:228-233 | "name:asc,price:desc" gives [(name, asc), (price, desc)] |
| OrderByExamples.NoCommaIsOneClause | src/main/java/it/ness/api/service/RsRepositoryServiceV3Reactive.java:226-236 | a non-blank orderBy already in lower case with no comma is parsed as that one clause |
| OrderByExamples.OneClause | src/main/java/it/ness/api/service/RsRepositoryServiceV3Reactive.java:249-274 | a single clause yields its column when usable, the not-usable failure otherwise |
| OrderByExamples.UsableOneClauseSpec | src/main/java/it/ness/api/service/RsRepositoryServiceV3Reactive.java:226-236 | a usable comma-free orderBy in lower case gives exactly its clause's column |
| OrderByExamples.NoDirectionSpec | src/main/java/it/ness/api/service/RsRepositoryServiceV3Reactive.java:252-263 | a non-blank, comma-free orderBy already in lower case, whose clause splits into a field and a second piece that is no direction, is refused with "sort is not usable" |
| OrderByExamples.NameDescExample | src/main/java/it/ness/api/service/RsRepositoryServiceV3Reactive.java:252-254 | "name desc" splits on the space and gives [(name, desc)] |
| OrderByExamples.NameXyzExample | src/main/java/it/ness/api/service/RsRepositoryServiceV3Reactive.java:259-263 | "name:xyz" is refused with "sort is not usable" |
| OrderByExamples.LeadingSpaceExample | src/main/java/it/ness/api/service/RsRepositoryServiceV3Reactive.java:226-227 | " name" is not trimmed before parsing and is refused |
| OrderByExamples.LoneCommaExample | src/main/java/it/ness/api/service/RsRepositoryServiceV3Reactive.java:228-233 | "," splits into no clause at all and gives the null sort, whatever the default |
| OrderByExamples.AscThenBareExample | src/main/java/it/ness/api/service/RsRepositoryServiceV3Reactive.java:270-271 | "name:asc,price" gives [(name, desc), (price, desc)]: the bare later clause re-sets the earlier column |
| OrderByExamples.BareNameExample | src/main/java/it/ness/api/service/RsRepositoryServiceV3Reactive.java:272 | "name" alone gives [(name, asc)] |
| OrderByExamples.DefaultWithAsc | src/main/java/it/ness/api/service/RsRepositoryServiceV3Reactive.java:240-241 | a default holding "asc" sorts ascending on the trimmed text `RemoveAll` leaves once every "asc" is removed; since "asc" occurs, that text is shorter by at least three chars (`JavaText.RemoveChangesIffPresent`) |
| OrderByExamples.DefaultWithDesc | src/main/java/it/ness/api/service/RsRepositoryServiceV3Reactive.java:242-243 | a default holding "desc" but no "asc" sorts descending on the trimmed text `RemoveAll` leaves once every "desc" is removed; since "desc" occurs, that text is shorter by at least four chars (`JavaText.RemoveChangesIffPresent`) |
| JavaText.Lower | src/main/java/it/ness/api/service/RsRepositoryServiceV3Reactive.java:227 | toLowerCase() keeps the length and lower-cases each char on its own (ASCII letters) |
| JavaText.EqualsIgnoreCaseCharwise | src/main/java/it/ness/api/service/RsRepositoryServiceV3Reactive.java:259-261 | equalsIgnoreCase holds exactly when the lengths agree and the chars agree once lower-cased (ASCII letters) |
| JavaText.RemoveAll | src/main/java/it/ness/api/service/RsRepositoryServiceV3Reactive.java:241-243 | replace(t, "") never lengthens the text |
| JavaText.RemovePresent | src/main/java/it/ness/api/service/RsRepositoryServiceV3Reactive.java:241-243 | where t occurs, replace(t, "") removes at least one occurrence: the text loses at least as many chars as t has |
| JavaText.RemoveChangesIffPresent | src/main/java/it/ness/api/service/RsRepositoryServiceV3Reactive.java:240-243 | replace(t, "") changes the text exactly when t occurs in it, the contains test that guards it |
| JavaText.SplitRoundTrip | src/main/java/it/ness/api/service/RsRepositoryServiceV3Reactive.java:229 | split's pieces hold no separator, and joining them gives back the input less its trailing separators |
| JavaText.SplitTwo | src/main/java/it/ness/api/service/RsRepositoryServiceV3Reactive.java:252-254 | a text with one separator and something after it splits into its two sides |
| JavaText.TrimIsInnerPart | src/main/java/it/ness/api/service/RsRepositoryServiceV3Reactive.java:226 | trim() keeps a contiguous middle part that neither starts nor ends with white space, and every char it cuts before or after that part is ≤ U+0020 |
| JavaText.TrimBounds | src/main/java/it/ness/api/service/RsRepositoryServiceV3Reactive.java:226 | names the bounds a ≤ b ≤ length: trim() keeps exactly s[a..b] and every char before a or from b on is ≤ U+0020 |
| JavaText.TrimEndsNotWhite | src/main/java/it/ness/api/service/RsRepositoryServiceV3Reactive.java:226 | a non-empty trim() result has a first and a last char above U+0020 |
| JavaText.BlankIffAllTrimmable | src/main/java/it/ness/api/service/RsRepositoryServiceV3Reactive.java:226 | trim().isEmpty() holds exactly when every char is white space in trim()'s sense |
| JavaText.ContainsIffOccurs | src/main/java/it/ness/api/service/RsRepositoryServiceV3Reactive.java:228 | contains(t) holds exactly when t occurs at some position |
| JavaText.RemoveWithoutLead | src/main/java/it/ness/api/service/RsRepositoryServiceV3Reactive.java:241 | replace(t, "") leaves a text without t's first char unchanged |
| JavaText.RemoveAbsent | src/main/java/it/ness/api/service/RsRepositoryServiceV3Reactive.java:241 | replace(t, "") leaves a text without t unchanged |
| Failures.HandleFailures | src/main/java/it/ness/api/service/RsRepositoryServiceV3Reactive.java:207-215 | a ReactiveException answers its own status and message; any other failure answers 400 with its description |
| Failures.HandleFailuresRoundTrip | src/main/java/it/ness/api/service/RsRepositoryServiceV3Reactive.java:207-215 | the failure can be read back from the response handleFailures gives, under the reading of jsonMessageResponse as a plain constructor (see "Left out") |
| Failures.HandleFailuresInjective | src/main/java/it/ness/api/service/RsRepositoryServiceV3Reactive.java:207-215 | distinct failures give distinct responses, under the same reading of jsonMessageResponse |
| Failures.OnlyReactiveChoosesStatus | src/main/java/it/ness/api/service/RsRepositoryServiceV3Reactive.java:208-210 | a status other than 400 comes only from a ReactiveException carrying it |
| Failures.NotFoundMessage | src/main/java/it/ness/api/service/RsRepositoryServiceV3Reactive.java:218-219 | the message is "Object [type] with id [key] not found", part by part |
| Failures.ObjectNotFound | src/main/java/it/ness/api/service/RsRepositoryServiceV3Reactive.java:217-221 | getObjectNotFoundException is a ReactiveException with status 404 |
| Failures.NotFoundMessageDeterminesKey | src/main/java/it/ness/api/service/RsRepositoryServiceV3Reactive.java:218-219 | two not-found messages for one type are equal only for equal keys |
| Paging.TruncDiv | src/main/java/it/ness/api/service/RsRepositoryServiceV3Reactive.java:198 | the quotient rounds toward zero: its magnitude is |a| / |b| and its sign is that of a·b |
| Paging.TruncDivRemainder | src/main/java/it/ness/api/service/RsRepositoryServiceV3Reactive.java:198 | the remainder left by truncating division is smaller than the divisor and has the dividend's sign |
| Paging.JavaDiv | src/main/java/it/ness/api/service/RsRepositoryServiceV3Reactive.java:198 | int `/` is truncating division, except that Integer.MIN_VALUE / -1 gives Integer.MIN_VALUE |
| Paging.IntValue | src/main/java/it/ness/api/service/RsRepositoryServiceV3Reactive.java:200 | intValue() agrees with the long modulo 2^32 and is the identity on values that fit in an int |
| Paging.ItemsWindow | src/main/java/it/ness/api/service/RsRepositoryServiceV3Reactive.java:192-202 | no page is read exactly when the count is 0; a non-zero page size reads page (startRow / pageSize, pageSize); a zero page size reads page (0, count.intValue()) |
| Paging.PageSlice | src/main/java/it/ness/api/service/RsRepositoryServiceV3Reactive.java:202 | a page holds at most `size` rows, the ones from index·size on |
| Paging.PageHoldsStartRow | src/main/java/it/ness/api/service/RsRepositoryServiceV3Reactive.java:197-198 | for startRow ≥ 0 the page read is the one that holds row startRow |
| Paging.PageStartsAtMultiple | src/main/java/it/ness/api/service/RsRepositoryServiceV3Reactive.java:198 | for startRow ≥ 0 and pageSize > 0, the page read starts at startRow rounded down to a multiple of the page size |
| Paging.NearNegativeStartRowIsPageZero | src/main/java/it/ness/api/service/RsRepositoryServiceV3Reactive.java:198 | a startRow less than one page below zero still reads page 0 |
| Paging.FarNegativeStartRowIsRefused | src/main/java/it/ness/api/service/RsRepositoryServiceV3Reactive.java:198-202 | a startRow at least one page below zero gives a negative index, which Page.of refuses |
| Paging.TruncationDiffersFromEuclid | src/main/java/it/ness/api/service/RsRepositoryServiceV3Reactive.java:198 | -15 / 10 is -1 in Java and -2 under floor division |
| Paging.ZeroPageSizeReadsAll | src/main/java/it/ness/api/service/RsRepositoryServiceV3Reactive.java:199-202 | a zero page size with a count that fits in an int reads every row in one page |
| Paging.HugeCountIsTruncated | src/main/java/it/ness/api/service/RsRepositoryServiceV3Reactive.java:200 | counts of 2^31 and 2^32 become Integer.MIN_VALUE and 0, and 0 is refused as a page size |
| Paging.PagesInOrder | src/main/java/it/ness/api/service/RsRepositoryServiceV3Reactive.java:202 | every page before a non-empty later page is full |
| Store.Lookup | src/main/java/it/ness/api/service/RsRepositoryServiceV3Reactive.java:49-51 | find yields the stored entity under the key, or null exactly when the key is absent |
| Store.Applied | src/main/java/it/ness/api/service/RsRepositoryServiceV3Reactive.java:71 | persist and merge store the entity under its key, remove drops its key, and no other key changes |
| Store.ReplayAppend | src/main/java/it/ness/api/service/RsRepositoryServiceV3Reactive.java:71-76 | replaying two logs one after the other is replaying their concatenation |
| RepositoryFacts.PersistThenDeleteReplaysBoth | src/main/java/it/ness/api/service/RsRepositoryServiceV3Reactive.java:59-133 | a persist and then a delete on one session leave the replay of both requests' calls, in order |
| Store.ReplayReadsOnly | src/main/java/it/ness/api/service/RsRepositoryServiceV3Reactive.java:49-51 | finds and flushes leave the table as it is |
| Store.Session.Find | src/main/java/it/ness/api/service/RsRepositoryServiceV3Reactive.java:49-51 | logs the find and answers FindResult, leaving the table unchanged and Valid() kept (the table is the replay of the log, each entity under its own key) |
| Store.Session.Persist | src/main/java/it/ness/api/service/RsRepositoryServiceV3Reactive.java:71 | logs the persist, applies it unless refused, Valid() kept (the table is the replay of the log, each entity under its own key) |
| Store.Session.Merge | src/main/java/it/ness/api/service/RsRepositoryServiceV3Reactive.java:109 | logs the merge, applies it unless refused, Valid() kept (the table is the replay of the log, each entity under its own key) |
| Store.Session.Remove | src/main/java/it/ness/api/service/RsRepositoryServiceV3Reactive.java:118 | logs the remove, applies it unless refused, Valid() kept (the table is the replay of the log, each entity under its own key) |
| Store.Session.Flush | src/main/java/it/ness/api/service/RsRepositoryServiceV3Reactive.java:76 | logs the flush, table unchanged, Valid() kept (the table is the replay of the log, each entity under its own key) |
| Store.Query.AddFilter | src/main/java/it/ness/reactiveapi/FruitServiceRs.java:40 | attaches one filter at the end, reads nothing |
| Store.Query.Count | src/main/java/it/ness/api/service/RsRepositoryServiceV3Reactive.java:190 | logs one count read and answers the number of selected rows, or the refusal |
| Store.Query.List | src/main/java/it/ness/api/service/RsRepositoryServiceV3Reactive.java:202 | logs one page read and answers that page of the selected rows, or the refusal |
| RepositoryService.DefaultHooksPassThrough | src/main/java/it/ness/api/service/RsRepositoryServiceV3Reactive.java:56-163 | each of the base class's nine hooks hands back what it was given and never fails |
| RepositoryService.Controller.Persist | src/main/java/it/ness/api/service/RsRepositoryServiceV3Reactive.java:59-81 | the response, the table and the calls appended to the session log are those of PersistTrace; the session stays Valid() |
| RepositoryService.Controller.Fetch | src/main/java/it/ness/api/service/RsRepositoryServiceV3Reactive.java:86-98 | response, table and logged calls are those of FetchTrace |
| RepositoryService.Controller.Update | src/main/java/it/ness/api/service/RsRepositoryServiceV3Reactive.java:103-115 | response, table and logged calls are those of UpdateTrace |
| RepositoryService.Controller.Delete | src/main/java/it/ness/api/service/RsRepositoryServiceV3Reactive.java:121-135 | response, table and logged calls are those of DeleteTrace |
| RepositoryService.Controller.Exist | src/main/java/it/ness/api/service/RsRepositoryServiceV3Reactive.java:137-146 | response, table and logged calls are those of ExistTrace |
| RepositoryService.Controller.GetListSize | src/main/java/it/ness/api/service/RsRepositoryServiceV3Reactive.java:148-161 | response and reads on the query are those of ListSizeRun; filters untouched |
| RepositoryService.Controller.GetItemsList | src/main/java/it/ness/api/service/RsRepositoryServiceV3Reactive.java:188-205 | result and reads on the query are those of ItemsListing; filters untouched |
| RepositoryService.Controller.GetList | src/main/java/it/ness/api/service/RsRepositoryServiceV3Reactive.java:165-186 | response and reads on the query are those of ListRunOf |
| RepositoryFacts.ChainStopsAtFirstFailure | src/main/java/it/ness/api/service/RsRepositoryServiceV3Reactive.java:69-80 | the first failing stage alone decides the response, mapped once by handleFailures, and only the stages up to it make their calls |
| RepositoryFacts.ChainWithoutFailure | src/main/java/it/ness/api/service/RsRepositoryServiceV3Reactive.java:69-80 | with no failing stage every call is made and the success response is given |
| RepositoryFacts.PersistIsChain | src/main/java/it/ness/api/service/RsRepositoryServiceV3Reactive.java:69-80 | persist is the chain prePersist, persist(object), postPersist, flush answering 200 with the original object, and its table is the replay of its calls |
| RepositoryFacts.PersistNullMakesNoCall | src/main/java/it/ness/api/service/RsRepositoryServiceV3Reactive.java:63-66 | a null object is answered with the null-object error and no session call |
| RepositoryFacts.PersistOrder | src/main/java/it/ness/api/service/RsRepositoryServiceV3Reactive.java:69-77 | persist calls at most persist then flush, and answers 200 exactly when both hooks and both calls succeed |
| RepositoryFacts.PersistStoresOriginal | src/main/java/it/ness/api/service/RsRepositoryServiceV3Reactive.java:71-77 | a successful persist stores the original object under its key |
| RepositoryFacts.PersistIgnoresHookOutputs | src/main/java/it/ness/api/service/RsRepositoryServiceV3Reactive.java:69-73 | what prePersist and postPersist return is ignored; only whether and how they fail matters |
| RepositoryFacts.FetchIsChain | src/main/java/it/ness/api/service/RsRepositoryServiceV3Reactive.java:91-96 | fetch is the chain preFetch, find, postFetch, null check, and leaves the table unchanged |
| RepositoryFacts.FetchNotFound | src/main/java/it/ness/api/service/RsRepositoryServiceV3Reactive.java:91-94 | a null from postFetch gives 404 naming the original id, even when preFetch changed the key looked up |
| RepositoryFacts.FetchWithDefaults | src/main/java/it/ness/api/service/RsRepositoryServiceV3Reactive.java:83-96 | with the base hooks fetch answers the stored entity, or 404 when the key is absent |
| RepositoryFacts.UpdateIsChain | src/main/java/it/ness/api/service/RsRepositoryServiceV3Reactive.java:108-113 | update is the chain preUpdate, merge, flush, postUpdate answering postUpdate's result, and its table is the replay of its calls |
| RepositoryFacts.UpdateHasNoNotFound | src/main/java/it/ness/api/service/RsRepositoryServiceV3Reactive.java:100-113 | update makes no lookup: an object under an absent key is merged in and answered 200 |
| RepositoryFacts.UpdateCallsIgnoreId | src/main/java/it/ness/api/service/RsRepositoryServiceV3Reactive.java:108-111 | the path id reaches only the hooks; the calls and the table do not depend on it |
| RepositoryFacts.DeleteIsChain | src/main/java/it/ness/api/service/RsRepositoryServiceV3Reactive.java:126-133 | delete is the chain preDelete, find, null check, remove, flush, postDelete answering 204 with the original id, and its table is the replay of its calls |
| RepositoryFacts.DeleteRunsChain | src/main/java/it/ness/api/service/RsRepositoryServiceV3Reactive.java:126-133 | delete's response and calls are those of the chain of its six stages |
| RepositoryFacts.DeleteTableIsReplay | src/main/java/it/ness/api/service/RsRepositoryServiceV3Reactive.java:127-130 | the table delete leaves is the replay of the calls it made |
| RepositoryFacts.DeleteNotFound | src/main/java/it/ness/api/service/RsRepositoryServiceV3Reactive.java:126-128 | a missing key gives 404 for the original id after the single find, with the table untouched |
| RepositoryFacts.DeleteNotFoundSkipsPostDelete | src/main/java/it/ness/api/service/RsRepositoryServiceV3Reactive.java:128-131 | when the key is missing postDelete never runs |
| RepositoryFacts.DeleteRemovesFound | src/main/java/it/ness/api/service/RsRepositoryServiceV3Reactive.java:127-132 | a successful delete removes the entity it found and answers the original id; in a table where each entity sits under its own key, the key looked up is gone |
| RepositoryFacts.ExistIsChain | src/main/java/it/ness/api/service/RsRepositoryServiceV3Reactive.java:142-145 | exist is the chain find, null check answering 200 with the id, and changes nothing |
| RepositoryFacts.ExistAnswers | src/main/java/it/ness/api/service/RsRepositoryServiceV3Reactive.java:142-145 | exist answers 200 exactly when the key is stored, 404 with the not-found message otherwise |
| RepositoryFacts.ListSizeIsChain | src/main/java/it/ness/api/service/RsRepositoryServiceV3Reactive.java:153-159 | getListSize is the chain getSearch, count answering the count in the body and the listSize header |
| RepositoryFacts.EmptyResultReadsNoPage | src/main/java/it/ness/api/service/RsRepositoryServiceV3Reactive.java:192-193 | no rows: only the count is read and the list is empty |
| RepositoryFacts.ItemsReadPageOfStartRow | src/main/java/it/ness/api/service/RsRepositoryServiceV3Reactive.java:195-202 | rows and a non-zero page size: page (startRow / pageSize, pageSize) is read when Page.of accepts it, else the listing fails before any page read |
| RepositoryFacts.ZeroPageSizeListsEverything | src/main/java/it/ness/api/service/RsRepositoryServiceV3Reactive.java:199-202 | a zero page size lists every row in one page |
| RepositoryFacts.CountFailureReadsNoPage | src/main/java/it/ness/api/service/RsRepositoryServiceV3Reactive.java:190-191 | a failing count ends the listing before any page read |
| RepositoryFacts.ListIsChain | src/main/java/it/ness/api/service/RsRepositoryServiceV3Reactive.java:165-186 | getList is the chain getSearch, count, Page.of check, page read, postList: the first failure alone is mapped by handleFailures and no later read is made; with none, OK with postList's list |
| RepositoryFacts.ListSizeHeaderIsListLength | src/main/java/it/ness/api/service/RsRepositoryServiceV3Reactive.java:176-184 | every list getList answers is an OK carrying startRow and pageSize as given and listSize equal to the list's length |
| RepositoryFacts.ListAnswersPage | src/main/java/it/ness/api/service/RsRepositoryServiceV3Reactive.java:165-205 | with the base hooks, rows, pageSize > 0 and startRow ≥ 0, getList reads count then page (startRow/pageSize, pageSize) and answers that page, at most pageSize rows |
| RepositoryFacts.PageReadFailure | src/main/java/it/ness/api/service/RsRepositoryServiceV3Reactive.java:173-202 | a refused page read is mapped by handleFailures after the count and page reads, and postList does not run |
| RepositoryFacts.PostListFailure | src/main/java/it/ness/api/service/RsRepositoryServiceV3Reactive.java:175-185 | a failing postList is mapped by handleFailures after the reads getItemsList made |
| RepositoryFacts.ListSizeHeaderIsPageLength | src/main/java/it/ness/api/service/RsRepositoryServiceV3Reactive.java:176-183 | worked example: 25 rows, startRow 20 and pageSize 10 answer the last 5 rows with listSize 5, not the total count |
| RepositoryFacts.ListSearchFailure | src/main/java/it/ness/api/service/RsRepositoryServiceV3Reactive.java:173-185 | a failing getSearch is mapped by handleFailures and no read is made |
| RepositoryFacts.PersistThenFetch | src/main/java/it/ness/api/service/RsRepositoryServiceV3Reactive.java:59-98 | with the base hooks, fetching the key of a just-persisted object answers that object |
| RepositoryFacts.HookDomainErrorVerbatim | src/main/java/it/ness/api/service/RsRepositoryServiceV3Reactive.java:69-80 | a ReactiveException raised by prePersist reaches the client with its own status and message, with no session call (any other stage: `RepositoryFacts.ChainStopsAtFirstFailure`) |
| RepositoryFacts.FailuresOnlyThroughHandleFailures | src/main/java/it/ness/api/service/RsRepositoryServiceV3Reactive.java:86-135 | fetch and delete answer their success response or a response of handleFailures, nothing else |
| FruitResource.FruitHooks | src/main/java/it/ness/reactiveapi/FruitServiceRs.java:47-57 | FruitServiceRs overrides prePersist alone, with the uniqueness check; every other hook is the base class's |
| FruitResource.Names | src/main/java/it/ness/reactiveapi/model/Fruit.java:28-35 | the names stored are exactly those of the stored fruits, so isNew(name) is "name not among them" |
| FruitResource.PrePersist | src/main/java/it/ness/reactiveapi/FruitServiceRs.java:46-57 | prePersist passes the fruit on exactly when its name is new, else fails with "Item already present in db" |
| FruitResource.SearchFilters | src/main/java/it/ness/reactiveapi/FruitServiceRs.java:38-43 | the like.name filter is attached exactly when that parameter is given, with its value |
| FruitResource.FruitService.GetSearch | src/main/java/it/ness/reactiveapi/FruitServiceRs.java:32-44 | a failing sort fails the search before any query exists; otherwise a fresh query with that sort, the requested filters and no reads |
| FruitResource.FruitService.Persist | src/main/java/it/ness/reactiveapi/FruitServiceRs.java:46-57 | persist with the uniqueness check against the names stored when the request starts |
| FruitResource.FruitService.GetList | src/main/java/it/ness/reactiveapi/FruitServiceRs.java:32-44 | a malformed orderBy is raised out of the endpoint; otherwise the generic listing's response |
| FruitResource.FruitService.GetListSize | src/main/java/it/ness/api/service/RsRepositoryServiceV3Reactive.java:148-161 | getListSize's search is sorted on name ascending, carries the requested filters and reads only the count |
| FruitResource.DuplicateNameRejected | src/main/java/it/ness/reactiveapi/FruitServiceRs.java:48-55 | a fruit whose name is stored is answered 400 "Item already present in db" with no session call |
| FruitResource.NewNamePersisted | src/main/java/it/ness/reactiveapi/FruitServiceRs.java:48-56 | a fruit with a new name is persisted, flushed and answered 200 when the database accepts both calls |
| FruitResource.PersistKeepsNamesUnique | src/main/java/it/ness/reactiveapi/FruitServiceRs.java:46-57 | starting from unique names, persist keeps the stored names unique whatever the request ends with |
| FruitResource.DefaultOrderIsNameAscending | src/main/java/it/ness/reactiveapi/FruitServiceRs.java:27-30 | a null or blank orderBy sorts on name ascending |
| FruitResource.MalformedOrderByRaises | src/main/java/it/ness/reactiveapi/FruitServiceRs.java:34 | "name:xyz" fails the sort despite the default |

## Left out

- Mutiny's asynchrony: each `Uni` chain is modelled as the sequence of its steps, run to completion. Scheduling, cancellation and concurrent requests are not modelled.
- Logging (`logger.info`, `logger.errorv`) and the "while doing" label of `handleFailures`: they do not change any response.
- `jsonMessageResponse` and `jsonErrorMessageResponse`: their class is not part of this model. The model takes the first to build a response with the given status and body. The second, the answer to a null persist body, is the opaque `NullObjectError`, whose status is not modelled.
- `Page.of`'s validation (index ≥ 0, size > 0) follows Panache's documented rule, and its failure is modelled as an `Unclassified` failure with a fixed description. Panache's source is not part of this model.
- `Sort.and(c)`, `ascending()` and `descending()`: the model reads `descending()`/`ascending()` as re-setting every column added so far. Panache's source is not part of this model.
- `JavaText.LowerChar`: lower-cases ASCII letters only. Java's locale-sensitive Unicode lower-casing is not modelled.
- `JavaText.EqualsIgnoreCase`: compares ASCII-lower-cased chars only. Java's `equalsIgnoreCase` also matches chars whose upper or lower cases agree, so 'ſ' (U+017F) matches 's' and `"name:deſc"` sorts descending in Java but is refused by the model.
- `Store.Query`: what filters do to the rows a query selects is not modelled. The selected rows are a given of the `Table`, and a filter is only recorded on the query. The `like.name` value is kept as given. `likeParamToLowerCase` and `nn` belong to a class that is not part of this model, so the filter is attached exactly when the parameter is present.
- `Paging.PageSlice`: the table is assumed to hold fewer than 2^63 rows (`Countable`). The slice bound index·size cannot overflow in its one caller: for a page Page.of accepts, index·size is at most startRow (index is 0 when the page size is 0), so it stays within int range.
- UUID generation for new fruits (`@GeneratedValue`): the key is whatever `Config.keyOf` reads from the entity.
- Database failures are modelled as a fixed set of refused operations per session or query, each failing with one description. A database that fails only some calls of one kind is not modelled.
- Hooks are modelled as pure functions of their arguments. A hook with side effects on the session is not modelled. `FruitResource.FruitService.Persist` evaluates `isNew` against the table as it stands when the request starts.
- FruitResource.PrePersist: `Fruit.isNew` is its own database query (`Fruit.find("name", name).list()`). A failure of that query is not modelled, though in the code it would fail prePersist and be answered 400 by handleFailures before any persist or flush. The model reads the names from the session's table, so prePersist fails only for a duplicate name.
- `toDelete` is modelled as the base class's `remove` only. A resource overriding it is not modelled.
- `getCurrentUser`, the `Access-Control-Expose-Headers` header and the JAX-RS `@DefaultValue` defaults (startRow 0, pageSize 10) are not modelled. A null `Integer` startRow or pageSize is not modelled either.
- Store.Session.Flush: the session's `rows` are its persistence context, the state pending in the session, not the committed database. A refused flush does not roll back the persist, merge or remove made before it, and no commit or transaction is modelled. `RepositoryFacts.PersistThenFetch`, `RepositoryFacts.DeleteRemovesFound` and `FruitResource.PersistKeepsNamesUnique` are statements about that context.
- `Store.Session` starts from a table in which each entity sits under its own key, as Hibernate keeps it; the constructor requires that.
- `RepositoryService.Controller.Update`: a null update body is not modelled; the entity is always present.
- Null entity fields, e.g. a `Fruit` with a null name: not modelled.
