# Player service model

A Dafny model of the player service of a small Spring REST application
(`PlayerServiceImpl`), together with the two list endpoints of its
controller that compose the service's steps. It covers:

- parsing of the path id;
- validation of a request body: the bounds and the required fields;
- derivation of `level` and `untilNextLevel` from `experience`;
- the filtering pass over the store;
- the in-place sort;
- the page slice;
- create, update and delete against an in-memory repository.

The modules follow the program's structure:

| file | module | what it holds |
|---|---|---|
| `entity.dfy` | `Entity` | the `Player` record (every field an `Option`, standing for a nullable Java box), the enumerations, and the error taxonomy |
| `java_lib.dfy` | `JavaLib` | the Java platform calls the service relies on: `Long.parseLong`, `String.contains`, the floor of `Math.sqrt` and the calendar year of an instant |
| `player_validation.dfy` | `PlayerValidation` | `examinationValidId`, `invalidValues`, `containsNullField`, `calculateLvl`, `calculateUntilNextLevel`, `lvlCalculation` |
| `player_query.dfy` | `PlayerQuery` | the filter of `getAllPlayers`, `sortPlayers`, and `getPage` |
| `repository.dfy` | `Repository` | `PlayerRepository` as a class holding a `map<int, Player>` and a fresh-id counter |
| `player_service.dfy` | `PlayerService` | `getPlayer`, the `getAllPlayers` loop, `addNewPlayer`, `updatePlayer`, `deletePlayer` |
| `controller.dfy` | `Controller` | the list request (filter, then sort, then page) and the count request |

Errors are a `Result`:

- `NotFound` is the `NoSuchPlayerException`.
- `InvalidData` is the `NoValidPlayerException`.
- `NullPointer` is a null box that gets unboxed or dereferenced.
- `OutOfRange` is a `subList` that refuses its bounds. That is an `IndexOutOfBoundsException` for a negative start or an end past the list, and an `IllegalArgumentException` for a start past the end: page 10 of size 3 on five players calls `subList(30, 5)`.

The filtering step (`PlayerQuery.Examine`) follows the `if` chain of the `forEach` body test by test. The name, title, banned, experience, level and birthday tests unbox or dereference the record's field, so a present criterion meeting that field null throws. One example is a `banned` criterion meeting a record whose `Boolean banned` is null. The race and profession tests compare references with `!=`, so a null field there only skips the record.

The filtering loop and the store's mutators are methods proved against specification functions (`Filter`, `ListSpec`, `GetPlayer`). The sort is an insertion sort over an `array`, proved to give a permutation sorted by id.

Behaviour of the source a reader might not expect:

- **Sorting by other keys.** The comparator for the NAME, LEVEL, BIRTHDAY and EXPERIENCE orders calls `compareTo` and throws the value away. Each case falls through to `return 0`, so the stable `List.sort` leaves the list as it was. The model does this: any order other than absent or `ID` gives back the input unchanged.
- **Nulls in sorted fields.** The `compareTo` calls still run, so they throw on a null field. Sorting by id throws on a null id. For two or more players, `List.sort` compares every element, so the sort fails exactly when some player lacks a compared field (`PlayerQuery.SortFails`).
- **`untilNextLevel`.** The formula gives the distance from the experience to the threshold of the next level. On validated experience it lies between 1 and the width of the current level (`PlayerValidation.CalculateUntilNextLevel`).
- **Birth years.** The year test accepts every year from 2000 to 3000, both included. An instant before 1970 is refused before the year is looked at.
- **`banned` on create.** `containsNullField` does not test `banned`, and the service code of `addNewPlayer` stores the body's `banned` as it is, so as far as the service shows, a record created without `banned` keeps it null (the entity class, which could set a default, is not part of this model). A request that filters on `banned` then fails when the name, title, race and profession tests let that record through (`PlayerQuery.ExamineThrowsOnlyOnBanned`, `PlayerQuery.NullBannedFails`).

## Model

| member | source | states |
|---|---|---|
| JavaLib.ParseLong | src/main/java/com/game/service/PlayerServiceImpl.java:139-141 | a value exactly when the string is one or more digits, optionally after one `-` or `+`, whose signed value lies in the range of a `long`, and then that signed value; every other string fails |
| JavaLib.ParseLongNegative | src/main/java/com/game/service/PlayerServiceImpl.java:139 | a minus sign before the decimal spelling of `n` gives `-n`, for every `n` down to the least `long` |
| JavaLib.ParseLongPlus | src/main/java/com/game/service/PlayerServiceImpl.java:139 | a plus sign before the decimal spelling of a `long` changes nothing |
| JavaLib.ParseLongOverflow | src/main/java/com/game/service/PlayerServiceImpl.java:139 | the decimal spelling of a number above the greatest `long` fails |
| JavaLib.ParseLongZeroPadded | src/main/java/com/game/service/PlayerServiceImpl.java:139 | a leading zero does not change what a digit string parses to |
| JavaLib.ParseLongDecimal | src/main/java/com/game/service/PlayerServiceImpl.java:139 | the decimal spelling of every non-negative `long` parses back to itself |
| JavaLib.ContainsIsSubstring | src/main/java/com/game/service/PlayerServiceImpl.java:49-50 | `contains` holds exactly when the needle occurs at some index of the string, both directions |
| JavaLib.FloorSqrt | src/main/java/com/game/service/PlayerServiceImpl.java:193 | the result is the floor of the square root: `r*r <= n < (r+1)*(r+1)` |
| JavaLib.YearOfUtc | src/main/java/com/game/service/PlayerServiceImpl.java:164-166 | the year of a non-negative instant is the year whose span of milliseconds contains it |
| JavaLib.YearInRange | src/main/java/com/game/service/PlayerServiceImpl.java:164-167 | the year lies in `[lo, hi]` exactly when the instant lies in `[start of lo, start of hi+1)` |
| JavaLib.YearStartMonotone | src/main/java/com/game/service/PlayerServiceImpl.java:164-166 | later years start strictly later |
| PlayerValidation.ExaminationValidId | src/main/java/com/game/service/PlayerServiceImpl.java:136-145 | Ok exactly when the string parses as a long greater than zero, with that value; every failure is InvalidData |
| PlayerValidation.ValidIdRoundTrip | src/main/java/com/game/service/PlayerServiceImpl.java:136-145 | every positive long is accepted in its decimal spelling |
| PlayerValidation.NegativeIdRejected | src/main/java/com/game/service/PlayerServiceImpl.java:143 | a string starting with a minus sign is always InvalidData |
| PlayerValidation.IdExamples | src/main/java/com/game/service/PlayerServiceImpl.java:136-145 | "abc", "0" and "-5" are InvalidData; "7" is 7 |
| PlayerValidation.BadBirthday | src/main/java/com/game/service/PlayerServiceImpl.java:161-168 | a present birthday is refused exactly when it lies outside [946684800000, 32535216000000) ms, the instants of the years 2000 to 3000 in UTC |
| PlayerValidation.InvalidValues | src/main/java/com/game/service/PlayerServiceImpl.java:147-172 | holds exactly when a present field breaks its bound: name length 0 or over 12, title over 30, experience outside [0, 10000000], birthday outside [946684800000, 32535216000000) ms; absent fields never count |
| PlayerValidation.ContainsNullField | src/main/java/com/game/service/PlayerServiceImpl.java:174-181 | false exactly when every required field is set: name, title, experience, race, profession and birthday; the id, `banned` and the derived fields are not required |
| PlayerValidation.BirthdayWindow | src/main/java/com/game/service/PlayerServiceImpl.java:161-168 | a non-negative birthday has a year in [2000, 3000] exactly when it lies in [946684800000, 32535216000000) |
| PlayerValidation.CalculateLvl | src/main/java/com/game/service/PlayerServiceImpl.java:192-194 | the level `l` satisfies `50*l*(l+1) <= exp < 50*(l+1)*(l+2)` |
| PlayerValidation.LevelUnique | src/main/java/com/game/service/PlayerServiceImpl.java:192-194 | only one level has that bracket, so the level is the largest `l` whose threshold the experience reaches |
| PlayerValidation.LevelOfZero | src/main/java/com/game/service/PlayerServiceImpl.java:192-194 | zero experience is level 0 |
| PlayerValidation.LevelMonotone | src/main/java/com/game/service/PlayerServiceImpl.java:192-194 | more experience never gives a lower level |
| PlayerValidation.LevelAtMost446 | src/main/java/com/game/service/PlayerServiceImpl.java:192-194 | the level never exceeds 446, and the maximal experience reaches exactly 446 |
| PlayerValidation.ThresholdOrder | src/main/java/com/game/service/PlayerServiceImpl.java:192-194 | a lower threshold belongs to a lower level |
| PlayerValidation.CalculateUntilNextLevel | src/main/java/com/game/service/PlayerServiceImpl.java:196-198 | the result is the distance from the experience to the threshold of the next level; for validated experience and its level it lies between 1 and the width of that level |
| PlayerValidation.LvlCalculation | src/main/java/com/game/service/PlayerServiceImpl.java:183-190 | the derived fields agree with the experience, and every other field is left as it was |
| PlayerValidation.ConsistentIsComputed | src/main/java/com/game/service/PlayerServiceImpl.java:183-198 | derived fields that agree with the experience are exactly the computed ones |
| PlayerQuery.Examine | src/main/java/com/game/service/PlayerServiceImpl.java:49-59 | where the step does not throw, it keeps a player exactly when every present criterion holds of it; it throws only when a name, title, banned, experience, level or birthday criterion meets that field null; with no criteria it keeps every player |
| PlayerQuery.ExamineThrowsOnlyOnBanned | src/main/java/com/game/service/PlayerServiceImpl.java:49-53 | on a stored record the step throws exactly when a `banned` criterion meets a null `banned` that the earlier tests let through |
| PlayerQuery.NullBannedFails | src/main/java/com/game/service/PlayerServiceImpl.java:53 | a request whose only criterion is `banned` fails, with NullPointer, on any list holding a stored record with null `banned`; with other criteria the exact condition is `ExamineThrowsOnlyOnBanned` |
| PlayerQuery.Filter | src/main/java/com/game/service/PlayerServiceImpl.java:47-62 | a failure is NullPointer; a success is no longer than the input and holds only players meeting every present criterion |
| PlayerQuery.FilterFails | src/main/java/com/game/service/PlayerServiceImpl.java:47-62 | the pass fails exactly when some player's step throws, and then with NullPointer |
| PlayerQuery.FilterStep | src/main/java/com/game/service/PlayerServiceImpl.java:47-61 | the pass over one more player is the previous pass followed by the verdict on that player |
| PlayerQuery.FilterSelects | src/main/java/com/game/service/PlayerServiceImpl.java:44-64 | a successful pass gives a subsequence of its input in the same order, holding exactly the players that meet every present criterion |
| PlayerQuery.FilterIsSelected | src/main/java/com/game/service/PlayerServiceImpl.java:47-62 | a successful pass is the plain filter of the input by the criteria, in order and with each matching player as often as it occurs |
| PlayerQuery.FilterNoCriteria | src/main/java/com/game/service/PlayerServiceImpl.java:47-62 | without criteria the pass gives back the whole input |
| PlayerQuery.SubsequenceAscending | src/main/java/com/game/service/PlayerServiceImpl.java:47-61 | leaving players out of a list in ascending id order keeps it ascending |
| PlayerQuery.InsertById | src/main/java/com/game/service/PlayerServiceImpl.java:90 | insertion adds exactly the one player to the multiset |
| PlayerQuery.InsertByIdSorted | src/main/java/com/game/service/PlayerServiceImpl.java:90 | insertion into a list sorted by id keeps it sorted |
| PlayerQuery.SortById | src/main/java/com/game/service/PlayerServiceImpl.java:90 | the reference sort by id is a permutation of its input |
| PlayerQuery.SortByIdKeepsTies | src/main/java/com/game/service/PlayerServiceImpl.java:90 | two players of equal id come out of the reference sort in their input order, as from the stable `List.sort` |
| PlayerQuery.SortByIdSorted | src/main/java/com/game/service/PlayerServiceImpl.java:90 | the reference sort by id is sorted by id |
| PlayerQuery.SortedPermutationUnique | src/main/java/com/game/service/PlayerServiceImpl.java:90 | two lists sorted by id with the same players and distinct ids are equal |
| PlayerQuery.AscendingIsSorted | src/main/java/com/game/service/PlayerServiceImpl.java:90 | sorting a list already in ascending id order leaves it as it is |
| PlayerQuery.StoredRecordsSort | src/main/java/com/game/service/PlayerServiceImpl.java:79-90 | a list of records carrying an id and every compared field never makes the sort throw, whatever the order |
| PlayerQuery.InsertLast | src/main/java/com/game/service/PlayerServiceImpl.java:90 | one insertion step extends the sorted prefix of the array by one, only permutes the array, and leaves the players after the step's index where they were |
| PlayerQuery.SortPlayers | src/main/java/com/game/service/PlayerServiceImpl.java:77-93 | NullPointer exactly when a comparator meets a null compared field, with the array untouched; otherwise, for order absent or ID, the array becomes a permutation of itself sorted by id; for every other order it is unchanged |
| PlayerQuery.SortSpec | src/main/java/com/game/service/PlayerServiceImpl.java:77-93 | fails, with NullPointer, exactly when a comparator meets a null compared field; a success only rearranges the list; under order absent or ID it is sorted by id, and under every other order it is the list unchanged, as the comparator falls through to `return 0` and `List.sort` is stable |
| PlayerQuery.SortedIsSortSpec | src/main/java/com/game/service/PlayerServiceImpl.java:77-93 | for a list in ascending id order, what the in-place sort leaves is the reference result of the sort |
| PlayerQuery.SortSpecAscending | src/main/java/com/game/service/PlayerServiceImpl.java:79-90 | stored records in ascending id order come out of every order's sort as they went in |
| PlayerQuery.GetPage | src/main/java/com/game/service/PlayerServiceImpl.java:67-74 | Ok exactly when `0 <= page*size <= length` and `size >= 0` (page defaults to 0, size to 3), with the slice from `page*size` to `min(page*size+size, length)`, never longer than the size; every failure is OutOfRange |
| PlayerQuery.PagesTile | src/main/java/com/game/service/PlayerServiceImpl.java:67-74 | reading pages 0, 1, ... in turn gives the list in order, with none skipped and none repeated |
| PlayerQuery.PageMembers | src/main/java/com/game/service/PlayerServiceImpl.java:73 | a page holds players of the list only and is never longer than it |
| PlayerQuery.DefaultPage | src/main/java/com/game/service/PlayerServiceImpl.java:68-73 | with no paging parameters the page is the first three players |
| PlayerQuery.PageExamples | src/main/java/com/game/service/PlayerServiceImpl.java:67-74 | on five players: the default page is the first three, page 1 of size 3 is the last two, a start past the end fails, and a start at the end is empty |
| Repository.RowsMembers | src/main/java/com/game/service/PlayerServiceImpl.java:47 | the listing holds each record of the key range and nothing else |
| Repository.RowsAscending | src/main/java/com/game/service/PlayerServiceImpl.java:47 | the listing is in strictly ascending id order, and every row has an id |
| Repository.PlayerRepository.FindAll | src/main/java/com/game/service/PlayerServiceImpl.java:47 | every record once, each under its own id, in ascending id order |
| Repository.PlayerRepository.FindById | src/main/java/com/game/service/PlayerServiceImpl.java:26 | a record exactly when the id is a key, and then that record |
| Repository.PlayerRepository.SaveNew | src/main/java/com/game/service/PlayerServiceImpl.java:131 | the record is stored under a fresh id set on it, and nothing else changes |
| Repository.PlayerRepository.SaveExisting | src/main/java/com/game/service/PlayerServiceImpl.java:119 | the record under the player's id is replaced, and nothing else changes |
| Repository.PlayerRepository.Delete | src/main/java/com/game/service/PlayerServiceImpl.java:98 | exactly the record with that id is removed |
| PlayerService.GetPlayer | src/main/java/com/game/service/PlayerServiceImpl.java:24-28 | a malformed or non-positive id is InvalidData whatever the store holds; a valid id is the stored record, or NotFound |
| PlayerService.GetAllPlayers | src/main/java/com/game/service/PlayerServiceImpl.java:31-65 | the `forEach` loop computes the filtering pass over `findAll` |
| PlayerService.EmptyStoreConsistent | src/main/java/com/game/service/PlayerServiceImpl.java:125-134 | the empty store the service starts from holds only well-formed records, the invariant its mutators require and keep |
| PlayerService.StoredRecordsReady | src/main/java/com/game/service/PlayerServiceImpl.java:125-134 | records stored by the service carry every field the filter and the comparators read, except possibly `banned` |
| PlayerService.DeletePlayer | src/main/java/com/game/service/PlayerServiceImpl.java:96-99 | fails exactly as `getPlayer` does, with the store unchanged; otherwise removes that one record and leaves every other record as it was |
| PlayerService.AddNewPlayer | src/main/java/com/game/service/PlayerServiceImpl.java:125-134 | a body missing a required field or breaking a bound is InvalidData with the store unchanged; otherwise the body with derived fields is stored under a fresh id and can be fetched back by its id |
| PlayerService.Merge | src/main/java/com/game/service/PlayerServiceImpl.java:108-114 | the id and the derived fields are never copied from the body; a complete record stays complete; valid inputs give a valid record |
| PlayerService.MergeEmpty | src/main/java/com/game/service/PlayerServiceImpl.java:108-114 | a body with every field null changes nothing |
| PlayerService.MergeIdempotent | src/main/java/com/game/service/PlayerServiceImpl.java:108-114 | sending the same body twice is the same as sending it once |
| PlayerService.UpdateKeepsWellFormed | src/main/java/com/game/service/PlayerServiceImpl.java:104-119 | merging a valid body into a stored record and recomputing gives a well-formed record under the same id |
| PlayerService.UpdatePlayer | src/main/java/com/game/service/PlayerServiceImpl.java:102-122 | the id and NotFound errors come before validation; an invalid body is InvalidData with the store unchanged; otherwise the merged record with recomputed derived fields replaces the stored one |
| PlayerService.ExperienceOnlyUpdate | src/main/java/com/game/service/PlayerServiceImpl.java:108-117 | an update that carries only an experience leaves every other client field as stored and recomputes level and `untilNextLevel` |
| Controller.ListSpec | src/main/java/com/game/controller/Controller.java:36-41 | a failure is NullPointer or OutOfRange; a success needs the filtering pass and the sort to succeed, and is never longer than the page size (3 when absent) |
| Controller.ListPlayers | src/main/java/com/game/controller/Controller.java:36-41 | the list request is the page of the sorted result of the filtering pass over `findAll`, failing at the first stage that fails |
| Controller.FilteredRecords | src/main/java/com/game/controller/Controller.java:36-39 | the filtered records keep their ids, their ascending order and their compared fields |
| Controller.GetCount | src/main/java/com/game/controller/Controller.java:57-60 | the count is the length of the filtering pass for the same criteria; it fails exactly when the pass does, with NullPointer |
| Controller.ListSpecOk | src/main/java/com/game/controller/Controller.java:36-41 | once the pass and the sort succeed, the list is the page of the sorted list |
| Controller.ListedPlayersMatch | src/main/java/com/game/controller/Controller.java:36-41 | every listed player is a record meeting every present criterion; the list is no longer than the count, nor than the page size |
| Controller.ListFailure | src/main/java/com/game/controller/Controller.java:36-41 | the list fails with the pass's error; else with NullPointer when the sort does; else with OutOfRange exactly when the start is negative or past the filtered count, or the size is negative |
| Controller.AscendingRecordsIgnoreOrder | src/main/java/com/game/controller/Controller.java:39 | over stored records in ascending id order, every order gives the same list (rests on the ascending `findAll` order) |
| Controller.DefaultListIsFirstPage | src/main/java/com/game/controller/Controller.java:36-41 | without criteria or paging, the list is the first three stored records (rests on the ascending `findAll` order) |
| Controller.ConsistentListSorts | src/main/java/com/game/controller/Controller.java:39 | over a store the service filled, the sort never fails |

## Left out

- Spring glue is not modelled: dependency injection, `@Transactional` and request routing. The repository is passed explicitly.
- The mapping of the two service exceptions to HTTP 404 and 400 is not modelled. The errors stop at the `Result`.
- HTTP and JSON binding of the parameters and enumeration tokens is not modelled.
- The by-id endpoints only forward the path string, and are not modelled.
- `PlayerService.java` is an interface with no logic.
- The `Player` entity class, the enumerations and the repository interface are not part of this model. Player fields are read from the getters and setters the service uses. The enumeration constants are illustrative.
- Entity identity and aliasing are not modelled. The service changes a managed `Player` through setters; the model treats `Player` as a value and each change as a record update. This differs only where an object is shared: the instance returned from `findById` is the stored one, and `subList` returns a view. No code path observes that sharing.
- Repository.PlayerRepository.FindAll: returns records in ascending id order, which is taken to be the store's natural iteration order.
- Repository.PlayerRepository.SaveNew: always assigns a fresh id. JPA merge of a client-supplied id is not modelled.
- AddNewPlayer: ignores any id in the body and stores under a fresh id, for the same reason.
- CalculateLvl: only for experience in [0, 10000000], the range validation admits. The double `Math.sqrt` is replaced by the integer square root. On that range `2500 + 200*exp` fits a Java `int` with no overflow, the double root's floor equals the integer root, and `sqrt - 50 >= 0`, so the `(int)` cast is a floor.
- GetPage: `page*size` and `from + size` are unbounded integers. Java `int` wrap-around of those products is not modelled.
- SortPlayers, SortSpec: stability among equal ids under the ID order is not stated as a general property. Both sorts keep ties in their input order (`SortPlayers` swaps only on a strictly greater id, and `SortById` inserts before equal ids; `SortByIdKeepsTies` shows it for two players), and the ids of stored records are distinct.
- SortPlayers: on a comparator failure the array is stated unchanged. Java's sort by id may already have moved elements before the throw, but the list is then discarded.
- ParseLong: accepts an optional sign and ASCII digits only. `Long.parseLong` also accepts other Unicode decimal digits.
- YearOfUtc: the calendar year is computed in UTC. `GregorianCalendar` uses the JVM default time zone, which can move an instant near New Year into the neighbouring year.
- DeletePlayer, AddNewPlayer, UpdatePlayer: require a store holding only well-formed records (`PlayerService.Consistent`). That holds of the empty store the application starts from (`PlayerService.EmptyStoreConsistent`) and every mutator keeps it; writes to the table from outside the service are not modelled.
- String lengths count characters of `seq<char>`. Java counts UTF-16 code units.
