# MangaVerse catalog, HTTP layer and reader state in Dafny

MangaVerse is a manga-reading web application. Its server keeps the whole
catalog in memory in `MemStorage`. The catalog holds accounts, genres,
categories, titles ("manga"), chapters and comments. Each kind is a
JavaScript `Map` keyed by an id that a per-kind counter hands out. An
Express layer in front of the store checks the session with two guards
(administrator and signed-in user) and answers with a status code and a
JSON body. The browser keeps three small pieces of state that this project
also models:
- the previous/next chapter links of the reading page;
- the zoom level and chapter buttons of the full-screen reader;
- the slide index of the featured-titles carousel on the home page.

The modules follow that structure:

- `Wrappers`: `Option`.
- `Seqs`: the array helpers the store uses, written out. It has filter, find, find-index and slice, and a stable insertion sort by an integer key. Sorted order, permutation and stability are proved as lemmas.
- `Text`: ASCII lower-casing and substring search, used by the title search.
- `Tables`: a JavaScript `Map<number, T>` as a sequence of (key, record) pairs in insertion order. It has `get`, `set` (replace in place, or append), `delete` and `values()`.
- `Schema`: the records, the insert and patch shapes, and how `createX` and `updateX` build a record (`{ ...old, ...patch }`).
- `Storage`: `MemStorage` as a class whose fields are the six maps, the six counters and a clock. The listing computations are functions with their own lemmas.
- `Routes`: the guards and the handlers as functions and methods over a `MemStorage` and a `Session`. The invariant `Consistent` is the store's own invariant, unique usernames, and no chapter without its title. Every write handler of the code as written accepts any store with the first two parts, keeps them, and keeps the third whenever it held before; only the as-written chapter update can break it (see Findings). `OwnedRowsHaveTitles` shows what the third part is for.
- `ChapterNavigation`: the reading page's neighbour computation.
- `MangaReader`: the reader's zoom and its chapter buttons, as a class.
- `Carousel`: the carousel's slide index, as a class, with JavaScript's `%`.

Two behaviours of the code worth noting:
- The trending list is not sorted by rating. The sort is commented out at server/storage.ts:217, so the list is the first `limit` titles in insertion order.
- A chapter carries `content` (`images` or `pdfUrl`) and `contentType`, as `updateChapter` and `createChapter` in server/storage.ts build it, rather than a `pages` array.

## Model

Rows marked "no contract of its own" are definitions that model source code directly; the members named in their third column state what they mean. The plumbing helpers Tables.GetAll, Seqs.SliceEnd, Storage.LatestRows, Storage.SortedLatestRows and Storage.LatestChapterRows have no row; the rows of MemStorage.GetMangaWithRelations, Seqs.Take, Storage.ScanGivesLatestUpdates and Storage.LatestChapterRowsMembers state what they compute.

| member | source | states |
|---|---|---|
| Tables.Keys | server/storage.ts:80-92 | The keys of a map, in insertion order, one per entry. |
| Tables.Values | server/storage.ts:204-206 | `Array.from(map.values())`: the records in insertion order, one per entry. |
| Tables.Get | server/storage.ts:255-257 | `map.get(k)` is undefined exactly when no entry has key `k`; otherwise it is the record stored under `k`. |
| Tables.Replace | server/storage.ts:339 | Overwriting an existing key keeps every key and its position and changes only that key's record. |
| Tables.Set | server/storage.ts:327 | `map.set` replaces in place when the key exists and appends otherwise; the keys grow by `k` only when it was new. |
| Tables.GetAfterSet | server/storage.ts:339 | After `set(k, v)`, `get(k)` is `v` and every other key reads as before. |
| Tables.GetEntry | server/storage.ts:139 | With distinct keys, `get` of an entry's key returns that entry's record. |
| Tables.SetKeepsAscending | server/storage.ts:167 | Setting an existing key, or a key above all others, keeps keys ascending. |
| Tables.AppendKeepsDistinct | server/storage.ts:183 | Appending a key the map lacks keeps keys distinct. |
| Tables.RemoveKeysSubset | server/storage.ts:349 | After deleting a set of keys every remaining entry was in the map and has none of those keys. |
| Tables.RemoveKeysKeeps | server/storage.ts:349 | Deleting keys keeps every entry whose key was not deleted. |
| Tables.RemoveKeysAscending | server/storage.ts:349 | Deleting keys keeps the remaining keys ascending. |
| Tables.GetAfterDelete | server/storage.ts:412 | After `delete(k)`, `get(k)` is undefined and every other key reads as before. |
| Tables.GetAfterRemove | server/storage.ts:349 | After deleting a set of keys, those read undefined and the rest read as before. |
| Tables.RemoveKeysTwice | server/storage.ts:349 | Deleting one set of keys and then another equals deleting their union. |
| Tables.DeleteAbsent | server/storage.ts:352 | Deleting a key the map does not hold leaves it unchanged. |
| Tables.RemoveKeys | server/storage.ts:349 | No contract of its own: the map after deleting every key of a set. RemoveKeysSubset, RemoveKeysKeeps, GetAfterRemove and RemoveKeysTwice state what it means. |
| Tables.Delete | server/storage.ts:411-413 | No contract of its own: `map.delete(k)`, deleting the one-key set. GetAfterDelete and DeleteAbsent state what it means. |
| Seqs.Filter | server/storage.ts:299-301 | `filter` keeps only elements that satisfy the predicate, every one that does, in their original order; FilterCounts states that each is kept as many times as it occurs. |
| Seqs.FindIndex | client/src/pages/ReadChapter.tsx:25 | `findIndex` is the first index that satisfies the predicate, or -1 when none does. |
| Seqs.Find | server/storage.ts:143-145 | `find` is undefined exactly when no element matches; otherwise it is the first match. |
| Seqs.Take | server/storage.ts:218 | `slice(0, n)` is a prefix of the array of length `SliceEnd`. |
| Seqs.SortBy | server/storage.ts:357-359 | `sort` by an integer key returns a permutation of its input in non-decreasing key order. |
| Seqs.SortByIsStable | client/src/pages/ReadChapter.tsx:24 | The sort is stable: the elements sharing a key keep their input order. |
| Seqs.SortByThenId | server/storage.ts:369-373 | Sorting records whose ids increase orders equal keys by increasing id. |
| Seqs.SubsequenceKeepsIdsIncreasing | server/storage.ts:269-270 | A filtered list of records with increasing ids still has increasing ids. |
| Seqs.PermutationKeepsDistinctBy | server/storage.ts:209-210 | Reordering a list with distinct ids keeps the ids distinct. |
| Seqs.TakeSortedIsLeast | server/storage.ts:369-374 | Every element left out by sort-then-slice has a key no smaller than any element kept. |
| Seqs.FilterCounts | server/storage.ts:299-301 | `filter` keeps every copy of an element that passes and no copy of one that fails. |
| Seqs.FilterAll | server/storage.ts:312-317 | Filtering with a predicate that every element satisfies returns the whole array. |
| Seqs.SortedFilterMembers | server/storage.ts:417-423 | Filtering then sorting keeps exactly the matching elements. |
| Text.Lower | server/storage.ts:311 | No contract of its own: `toLowerCase` on ASCII letters, one character at a time. LowerIsIdempotent states its property; other Unicode letters are under "## Left out". |
| Text.Contains | server/storage.ts:314-316 | No contract of its own: `includes`, an occurrence of the needle as a contiguous piece. ContainsEmpty and ContainsWithin state its properties. |
| Text.LowerIsIdempotent | server/storage.ts:311 | Lower-casing twice is lower-casing once. |
| Text.ContainsEmpty | server/storage.ts:314 | Every string includes the empty string. |
| Text.ContainsWithin | server/storage.ts:314 | A string that includes a needle still includes it with text added at either end. |
| Schema.NewUser | server/storage.ts:154-169 | No contract of its own: the account `createUser` builds. NewUserDefaults states each field, and CreateUser stores it under the counter's id. |
| Schema.NewManga | server/storage.ts:320-329 | No contract of its own: the insert's fields with the counter's id and the clock reading as `createdAt`. MemStorage.CreateManga's ensures store exactly this record under the old counter. |
| Schema.NewChapter | server/storage.ts:381-390 | No contract of its own: the insert's fields with the counter's id and the clock reading. MemStorage.CreateChapter's ensures store exactly this record under the old counter. |
| Schema.NewComment | server/storage.ts:425-434 | No contract of its own: the insert's fields with the counter's id and the clock reading. MemStorage.CreateComment's ensures store exactly this record under the old counter. |
| Schema.MergeManga | server/storage.ts:337-338 | No contract of its own: `{ ...manga, ...mangaUpdate }`. MergeMangaFields, MergeMangaKeepsIdentity and MergeMangaIdempotent state what it means. |
| Schema.MergeChapter | server/storage.ts:398-406 | No contract of its own: `{ ...chapter, ...chapterUpdate, content: ... }`. MergeChapterContent states what it means. |
| Schema.NewUserDefaults | server/storage.ts:154-169 | A new account keeps its id, username and password. It is an administrator exactly when asked with `true`. A non-empty provider is kept, and a missing or empty one becomes "local". E-mail, avatar and provider id are kept when non-empty and become null when missing or empty. |
| Schema.MergeMangaKeepsIdentity | server/storage.ts:331-341 | An update never changes a title's id or creation time, and an empty patch changes nothing. |
| Schema.MergeMangaFields | server/storage.ts:337-338 | Each supplied field, arrays included, replaces the old value wholesale; each absent field keeps it. |
| Schema.MergeMangaIdempotent | server/storage.ts:337-338 | Applying the same patch twice equals applying it once. |
| Schema.MergeChapterContent | server/storage.ts:392-409 | A chapter update rebuilds `content` from the patch alone: without a patched `content` both images and PDF link are cleared. It keeps id and creation time. A supplied title id, title, chapter number or content type replaces the old value, and an absent one keeps it. |
| Storage.WellKeyedIdsIncreasing | server/storage.ts:80-92 | In a table filled from a counter, the records come out in increasing, distinct id order. |
| Storage.SetFreshKey | server/storage.ts:320-329 | Storing under the counter's next id appends, and the table stays keyed by ids below the counter. |
| Storage.SetExistingKey | server/storage.ts:331-341 | Overwriting an existing key with a record of the same id keeps the table well keyed. |
| Storage.RemoveKeepsWellKeyed | server/storage.ts:343-353 | Deleting entries keeps the table well keyed. |
| Storage.SetKeepsStamped | server/storage.ts:320-329 | Storing a record stamped no later than the clock keeps every stamp at or before the clock. |
| Storage.StampedLater | server/storage.ts:325 | Stamps at or before one clock reading are at or before any later reading. |
| Storage.RemoveKeepsStamped | server/storage.ts:343-353 | Deleting entries keeps every stamp at or before the clock. |
| Storage.ChapterIdsOf | server/storage.ts:345-348 | The ids collected for the cascade are keys of the chapters map. |
| Storage.ChaptersNotOf | server/storage.ts:343-353 | Exactly the chapters of other titles, in their order. |
| Storage.CascadeRemovesChaptersOf | server/storage.ts:345-349 | Deleting the collected ids leaves exactly the chapters of the other titles. |
| Storage.CascadeAfterRemoves | server/storage.ts:349 | Deleting the collected ids one at a time equals deleting them all at once. |
| Storage.CascadeResult | server/storage.ts:343-353 | After the cascade, the chapters map is the other titles' chapters, still well keyed and stamped. |
| Storage.RecordLatest | server/storage.ts:229-236 | No contract of its own: one step of the scan, which keeps the chapter when its title has none yet or its number is strictly higher. LatestPerMangaStep ties it to the loop, and LatestPerMangaIsLatest states what the steps add up to. |
| Storage.LatestPerManga | server/storage.ts:225-237 | No contract of its own: the map the scan builds over the chapters in order. LatestPerMangaIsLatest states what it holds, and GetLatestUpdatedManga's loop invariant ties the loop to it. |
| Storage.LatestPerMangaIsLatest | server/storage.ts:225-237 | The scan keeps one chapter per title that has chapters. It is the highest-numbered chapter, and among equal numbers the first seen. |
| Storage.LatestPerMangaStep | server/storage.ts:229-237 | One more chapter visited is one more step of the scan. |
| Storage.LatestUpdates | server/storage.ts:222-253 | The latest-updates listing is cut to `limit`, newest chapter first, one row per title. Each row is a kept chapter with its title's lookup, which finds the title under the invariant (`OwnedRowsHaveTitles`); with room for all, every title with a chapter appears. |
| Storage.ScanGivesLatestUpdates | server/storage.ts:240-250 | Sorting and slicing the scanned rows gives exactly the listing. |
| Storage.LatestUpdatesOrdered | server/storage.ts:245-250 | The cut listing is newest first and names each title at most once. |
| Storage.LatestUpdatesKept | server/storage.ts:240-244 | Each row is a chapter the scan keeps, paired with its title's lookup. |
| Storage.LatestUpdatesComplete | server/storage.ts:222-253 | With room for every row, every title that has a chapter appears. |
| Storage.LatestUpdatesNewest | server/storage.ts:245-252 | Which titles survive the cut: a title left out has its kept chapter no newer than any chapter listed. |
| Storage.SortedRowsKept | server/storage.ts:245-249 | Sorting keeps each row a kept chapter with its lookup. |
| Storage.SortedRowsDistinct | server/storage.ts:240-249 | No two sorted rows are about the same title. |
| Storage.SortedRowsCover | server/storage.ts:240-249 | Every title with a chapter has a row, and there are no more rows than chapters. |
| Storage.LatestChapterRowsOrdered | server/storage.ts:366-379 | The latest chapters are newest first, and chapters created at the same moment come in creation (id) order. |
| Storage.LatestChapterRowsMembers | server/storage.ts:374-377 | Each row is a chapter of the store paired with its title's lookup. |
| Storage.LatestChapterRowsNewest | server/storage.ts:366-379 | A chapter left out of the listing is no newer than any chapter listed. |
| Storage.MemStorage.constructor | server/storage.ts:94-135 | A new store holds the admin account (id 1), the seven seed genres and four seed categories with ids 1.., no titles, chapters or comments, and counters past the seeds. |
| Storage.MemStorage.InitializeData | server/storage.ts:112-135 | Seeding creates the admin account and the genres and categories in list order, ids from 1. |
| Storage.MemStorage.SeedGenreTable | server/storage.ts:130 | Creating the genres of a list one by one gives genre `k+1` the `k`-th name. |
| Storage.MemStorage.SeedCategoryTable | server/storage.ts:134 | Creating the categories of a list one by one gives category `k+1` the `k`-th name. |
| Storage.MemStorage.GetUser | server/storage.ts:138-140 | Undefined exactly when no account has that id; otherwise the account with that id. |
| Storage.MemStorage.GetUserByUsername | server/storage.ts:142-146 | Undefined exactly when no account has the name; otherwise the first account, in creation order, with it. |
| Storage.MemStorage.GetUserByProviderId | server/storage.ts:148-152 | Undefined exactly when no account is linked to the provider id; otherwise the first linked account. |
| Storage.MemStorage.CreateUser | server/storage.ts:154-169 | The account gets the next id and the defaults, and is appended; the store stays valid. |
| Storage.MemStorage.GetGenres | server/storage.ts:172-174 | All genres, in creation order. |
| Storage.MemStorage.GetGenre | server/storage.ts:176-178 | Undefined exactly when absent; otherwise the genre with that id. |
| Storage.MemStorage.CreateGenre | server/storage.ts:180-185 | A genre with the next id is appended. |
| Storage.MemStorage.GetCategories | server/storage.ts:188-190 | All categories, in creation order. |
| Storage.MemStorage.GetCategory | server/storage.ts:192-194 | Undefined exactly when absent; otherwise the category with that id. |
| Storage.MemStorage.CreateCategory | server/storage.ts:196-201 | A category with the next id is appended. |
| Storage.MemStorage.GetAllManga | server/storage.ts:204-206 | All titles, in creation order, ids increasing. |
| Storage.MemStorage.GetFeaturedManga | server/storage.ts:208-212 | The first `limit` titles of a shuffle of the catalog: each a stored title, no title twice, and as many as `slice` allows. |
| Storage.MemStorage.GetTrendingManga | server/storage.ts:214-220 | The first `limit` titles in creation order. |
| Storage.MemStorage.GetLatestUpdatedManga | server/storage.ts:222-253 | The scan loop and the sort produce exactly `LatestUpdates`. |
| Storage.MemStorage.GetMangaById | server/storage.ts:255-257 | Undefined exactly when absent; otherwise the title with that id. |
| Storage.MemStorage.ViewComment | server/storage.ts:280-287 | A comment shown with its author's name and avatar, or "Unknown User" and no avatar when the author is gone. |
| Storage.MemStorage.ViewComments | server/storage.ts:280-287 | The comments keep their order and content, each is shown with a non-empty name, and each whose author is missing reads "Unknown User" with no avatar. |
| Storage.MemStorage.GetMangaWithRelations | server/storage.ts:259-296 | Undefined exactly when the title is absent. Otherwise: the title; one genre and one category lookup per id it lists; its chapters as `getChapters`; and its comments as `getCommentsByMangaId` (newest first), each shown as `ViewComment` gives it, so a missing author reads "Unknown User". |
| Storage.MemStorage.GetMangaByGenre | server/storage.ts:298-302 | Exactly the titles listing the genre, in creation order. |
| Storage.MemStorage.GetMangaByCategory | server/storage.ts:304-308 | Exactly the titles listing the category, in creation order. |
| Storage.MatchesQuery | server/storage.ts:312-317 | No contract of its own: the filter's test, on the lowered title, description or author. SearchManga, SearchIgnoresQueryCase and SearchEmptyMatchesAll state what it selects. |
| Storage.MemStorage.SearchManga | server/storage.ts:310-318 | Exactly the titles whose lowered title, description or author contains the lowered query, in creation order. |
| Storage.MemStorage.SearchIgnoresQueryCase | server/storage.ts:311 | Searching for the lowered query gives the same titles as the query itself. |
| Storage.MemStorage.SearchEmptyMatchesAll | server/storage.ts:312-317 | The empty query matches every title. |
| Storage.MemStorage.CreateManga | server/storage.ts:320-329 | The title gets the next id and the current time, and is appended. |
| Storage.MemStorage.UpdateManga | server/storage.ts:331-341 | Undefined and no change exactly when absent; otherwise the merged title replaces the old one in place and every other title is unchanged. |
| Storage.MemStorage.DeleteManga | server/storage.ts:343-353 | The title is removed together with all of its chapters; the result says whether it existed. |
| Storage.MemStorage.GetChapters | server/storage.ts:356-360 | Exactly the title's chapters, highest number first, equal numbers in creation order. |
| Storage.MemStorage.GetChapterById | server/storage.ts:362-364 | Undefined exactly when absent; otherwise the chapter with that id. |
| Storage.MemStorage.GetLatestChapters | server/storage.ts:366-379 | At most `limit` chapters with their titles' lookups, newest first, none left out that is newer than one listed. |
| Storage.MemStorage.CreateChapter | server/storage.ts:381-390 | The chapter gets the next id and the current time, and is appended. |
| Storage.MemStorage.UpdateChapter | server/storage.ts:392-409 | Undefined and no change exactly when absent; otherwise the merged chapter replaces the old one in place. |
| Storage.MemStorage.DeleteChapter | server/storage.ts:411-413 | The chapter is removed; the result says whether it existed. |
| Storage.MemStorage.GetCommentsByMangaId | server/storage.ts:416-423 | Exactly the title's comments, newest first, equal times in creation order. |
| Storage.MemStorage.CreateComment | server/storage.ts:425-434 | The comment gets the next id and the current time, and is appended. |
| Storage.MemStorage.DeleteComment | server/storage.ts:436-438 | The comment is removed; the result says whether it existed. |
| Routes.Session.constructor | server/routes.ts:34-41 | A session starts without a user (`saveUninitialized: false`). |
| Routes.RequireAdmin | server/routes.ts:15-21 | Passes exactly a signed-in administrator; otherwise 403. |
| Routes.RequireAuth | server/routes.ts:24-30 | Passes exactly a signed-in user; otherwise 401. |
| Routes.AdminGuardIsStricter | server/routes.ts:15-30 | Whoever passes the admin guard passes the authentication guard; a signed-in non-administrator shows the converse fails. |
| Routes.OpenStore | server/storage.ts:441 | The store the server opens satisfies the handlers' invariant. |
| Routes.OwnedAfterNewTitle | server/routes.ts:285-297 | Adding a title keeps every chapter owned by a stored title. |
| Routes.OwnedAfterTitleUpdate | server/routes.ts:299-321 | Updating a title keeps every chapter owned. |
| Routes.OwnedAfterNewChapter | server/routes.ts:388-407 | Adding a chapter of a stored title keeps every chapter owned. |
| Routes.OwnedAfterChapterUpdate | server/routes.ts:409-431 | Updating a chapter so that it names a stored title keeps every chapter owned. |
| Routes.OwnedAfterChapterDelete | server/routes.ts:433-450 | Deleting a chapter keeps every chapter owned. |
| Routes.OwnedAfterCascade | server/routes.ts:323-340 | Deleting a title with its chapters keeps every chapter owned. |
| Routes.NothingToCascade | server/routes.ts:323-340 | When every chapter has a title, a title that does not exist has no chapters to remove. |
| Routes.OwnedRowsHaveTitles | server/storage.ts:240-244 | When every chapter has a title, every row of the latest-updates and latest-chapters listings holds a found title, as the non-null assertions `get(...)!` at server/storage.ts:242 and server/storage.ts:376 assume. |
| Routes.Authenticate | server/routes.ts:44-73 | 400 exactly when a field is missing or empty, otherwise 401 or 200. A 200 names an account with that username and password and echoes the username. |
| Routes.LoginMatchesAccount | server/routes.ts:52-56 | With unique usernames, login succeeds exactly when an account has that username and password. |
| Routes.NewestAccountCanLogIn | server/routes.ts:52-62 | The only account with a name logs in with its password and gets its own session record. |
| Routes.Login | server/routes.ts:44-73 | Answers as `Authenticate` and stores the account in the session exactly on success. |
| Routes.UniqueAfterNewAccount | server/routes.ts:79-82 | Adding an account whose name is not taken keeps usernames unique. |
| Routes.AsMember | server/routes.ts:84-87 | Whatever the request asks, registration creates a non-administrator with the given name and password. |
| Routes.Register | server/routes.ts:75-107 | A taken name gives 400 and changes nothing. Otherwise a non-administrator account is appended, the session holds it, 201 is sent, and the new account can log in. Usernames stay unique, and every chapter keeps its title if each did before. |
| Routes.Logout | server/routes.ts:109-117 | The session no longer holds a user; 200. |
| Routes.Me | server/routes.ts:119-125 | The session's user with 200, or 401 exactly when there is none. |
| Routes.LoginThenMe | server/routes.ts:44-125 | On one session, after a successful login, asking who is logged in returns the account that logged in, with the username sent; after a failed login the answer is as before. |
| Routes.Search | server/routes.ts:251-264 | 400 exactly when the query is missing or empty; otherwise exactly the matching titles. |
| Routes.MangaDetails | server/routes.ts:266-283 | 400 exactly when the id does not parse, 404 exactly when the title is absent, otherwise the stored title with its relations. |
| Routes.ChapterDetails | server/routes.ts:369-386 | 400 exactly when the id does not parse, 404 exactly when absent, otherwise the stored chapter. |
| Routes.PostGenre | server/routes.ts:138-150 | 403 and no change for a non-administrator; otherwise 201 with the genre appended. |
| Routes.PostCategory | server/routes.ts:163-175 | 403 and no change for a non-administrator; otherwise 201 with the category appended. |
| Routes.PostManga | server/routes.ts:285-297 | 403 and no change, the clock included, for a non-administrator; otherwise 201 with the title appended. |
| Routes.PutManga | server/routes.ts:299-321 | After the admin check: 400 for a bad id, 404 exactly when absent, otherwise 200 with the merged title stored in place. Errors change nothing. |
| Routes.DeleteMangaRoute | server/routes.ts:323-340 | After the admin check: 400 for a bad id, 404 exactly when the title is absent, otherwise 200 with the title and its chapters gone. On a 404 the titles are unchanged and the chapters naming the id are removed, which changes nothing when every chapter has its title. Every chapter keeping its title is preserved. |
| Routes.DeleteAbsentRemovesOrphans | server/storage.ts:345-349 | A chapter whose title is missing is removed by the cascade of a delete of that missing title. |
| Routes.PostChapter | server/routes.ts:388-407 | After the admin check: 404 and no new chapter exactly when the title does not exist, otherwise 201 with the chapter appended. |
| Routes.PutChapterAsWritten | server/routes.ts:409-431 | After the admin check: 400 for a bad id, 404 exactly when the chapter is absent, otherwise 200 with the merged chapter stored, whatever title it names. |
| Routes.Retarget | server/routes.ts:416 | A patch that names a given title and nothing else; applied, it moves the chapter and, like every update, clears its content. |
| Routes.AsWrittenUpdateOrphans | server/routes.ts:416-421 | Moving a chapter to a title that does not exist leaves a chapter without a title. |
| Routes.AsWrittenUpdateOrphansExample | server/routes.ts:416-421 | One title, one chapter of it, and a patch naming title 2 produce that state. |
| Routes.DeleteAfterOrphanExample | server/routes.ts:330-333 | In that state, a delete of the missing title 2 removes the orphaned chapter, although the reply is 404. |
| Routes.OwnerStillExists | server/routes.ts:392-395 | A patch that names no title, or a stored one, leaves the chapter with a stored title. |
| Routes.PutChapterChecked | server/routes.ts:409-431 | The corrected update: 404 "Manga not found" when the patch names a missing title, as creation does; otherwise as written. The invariant is kept. |
| Routes.DeleteChapterRoute | server/routes.ts:433-450 | After the admin check: 400 for a bad id, 404 exactly when absent with nothing changed, otherwise the chapter is gone. |
| ChapterNavigation.ReadingOrder | client/src/pages/ReadChapter.tsx:24 | The sorted copy is a permutation of the chapters in ascending chapter number. |
| ChapterNavigation.Position | client/src/pages/ReadChapter.tsx:25 | The first index in reading order of the chapter with that id, or -1 exactly when no chapter has it. |
| ChapterNavigation.OnDataChange | client/src/pages/ReadChapter.tsx:22-30 | The links are recomputed only when both the chapter list and the current chapter have loaded. |
| ChapterNavigation.LinksWaitForData | client/src/pages/ReadChapter.tsx:19-23 | Until both have loaded the page shows no links. |
| ChapterNavigation.PresentAtPosition | client/src/pages/ReadChapter.tsx:24-25 | With distinct ids, the sorted copy has distinct ids and a listed chapter is found at its own position. |
| ChapterNavigation.NeighboursOf | client/src/pages/ReadChapter.tsx:24-28 | No contract of its own: the two conditional expressions over the sorted copy and `findIndex`. NeighboursOfPresent, NeighboursOfAbsent and NeighboursOfEmpty state what it gives. |
| ChapterNavigation.NeighboursOfPresent | client/src/pages/ReadChapter.tsx:24-28 | For a listed chapter: the previous link is missing exactly for the first in reading order, and the next link exactly for the last. Otherwise they are its neighbours in that order, never itself, with numbers ordered around it. |
| ChapterNavigation.LowestComesFirst | client/src/pages/ReadChapter.tsx:24 | The first chapter in reading order has the lowest number. |
| ChapterNavigation.LowestKeepsListOrder | client/src/pages/ReadChapter.tsx:24 | Among chapters sharing the lowest number, the first in list order comes first. |
| ChapterNavigation.NeighboursOfAbsent | client/src/pages/ReadChapter.tsx:25-28 | An id not in the list gives no previous link and a next link to the lowest-numbered chapter. |
| ChapterNavigation.NeighboursOfEmpty | client/src/pages/ReadChapter.tsx:27-28 | An empty list gives no links. |
| MangaReader.ZoomedIn | client/src/components/manga/MangaReader.tsx:63-67 | No contract of its own: the zoom-in handler's new level. ZoomStaysValid, ZoomInThenOut and RepeatedPresses state its properties. |
| MangaReader.ZoomedOut | client/src/components/manga/MangaReader.tsx:69-73 | No contract of its own: the zoom-out handler's new level. ZoomStaysValid, ZoomInThenOut and RepeatedPresses state its properties. |
| MangaReader.ZoomStaysValid | client/src/components/manga/MangaReader.tsx:63-73 | Each zoom button keeps the level a multiple of ten within 50..150, and changes it by ten or, at the bound, not at all. |
| MangaReader.ZoomInThenOut | client/src/components/manga/MangaReader.tsx:63-73 | Away from the bounds, zooming in and out undo each other, in either order. |
| MangaReader.ZoomAfterIsValid | client/src/components/manga/MangaReader.tsx:35-73 | Starting from a valid level, any series of presses keeps the zoom valid. |
| MangaReader.Presses | client/src/components/manga/MangaReader.tsx:63-73 | `k` presses of the same button. |
| MangaReader.RepeatedPresses | client/src/components/manga/MangaReader.tsx:63-73 | Within the bounds, `k` presses move the zoom by `10k`. |
| MangaReader.EveryValidZoomIsReachable | client/src/components/manga/MangaReader.tsx:35-73 | From 100%, every valid level is reached by pressing one button enough times. |
| MangaReader.Truthy | client/src/components/manga/MangaReader.tsx:76 | No contract of its own: JavaScript truthiness of an optional id (defined and not 0). Follow states how the buttons depend on it. |
| MangaReader.Follow | client/src/components/manga/MangaReader.tsx:75-85 | A chapter button navigates to the linked chapter of the same title exactly when the link is truthy; otherwise the page stays. |
| MangaReader.Reader.constructor | client/src/components/manga/MangaReader.tsx:28-35 | The reader opens at 100% on the chapter's own page. |
| MangaReader.Reader.ZoomIn | client/src/components/manga/MangaReader.tsx:63-67 | Zoom in, keeping the level valid. |
| MangaReader.Reader.ZoomOut | client/src/components/manga/MangaReader.tsx:69-73 | Zoom out, keeping the level valid. |
| MangaReader.Reader.GoToPreviousChapter | client/src/components/manga/MangaReader.tsx:75-79 | Follows the previous link when truthy. |
| MangaReader.Reader.GoToNextChapter | client/src/components/manga/MangaReader.tsx:81-85 | Follows the next link when truthy. |
| Carousel.JsRem | client/src/components/manga/FeaturedMangaCarousel.tsx:19 | JavaScript's `%`: the remainder has the dividend's sign and is smaller in size than the divisor. |
| Carousel.SmallRem | client/src/components/manga/FeaturedMangaCarousel.tsx:19-23 | For a dividend below twice the divisor the remainder is the dividend, or the dividend minus the divisor. |
| Carousel.NextIndex | client/src/components/manga/FeaturedMangaCarousel.tsx:19 | No contract of its own: `(prev + 1) % totalSlides`. ArrowsStayInRange, ArrowSteps, ArrowsAreInverse and FullTurn state its properties. |
| Carousel.PrevIndex | client/src/components/manga/FeaturedMangaCarousel.tsx:23 | No contract of its own: `(prev - 1 + totalSlides) % totalSlides`. ArrowsStayInRange, ArrowSteps and ArrowsAreInverse state its properties. |
| Carousel.ArrowsStayInRange | client/src/components/manga/FeaturedMangaCarousel.tsx:18-24 | From any index that is not negative, both arrows give a slide that exists. |
| Carousel.ArrowSteps | client/src/components/manga/FeaturedMangaCarousel.tsx:18-24 | Forward moves one slide on and wraps from the last to the first; back moves one slide back and wraps from the first to the last. |
| Carousel.ArrowsAreInverse | client/src/components/manga/FeaturedMangaCarousel.tsx:18-24 | The two arrows undo each other. |
| Carousel.AdvanceWithin | client/src/components/manga/FeaturedMangaCarousel.tsx:27-35 | Before the last slide, `k` forward steps move `k` places. |
| Carousel.AdvanceSplit | client/src/components/manga/FeaturedMangaCarousel.tsx:27-35 | `j + k` steps are `j` steps followed by `k` steps. |
| Carousel.FullTurn | client/src/components/manga/FeaturedMangaCarousel.tsx:27-35 | One forward step per slide (one full auto-rotation) comes back to the starting slide. |
| Carousel.FeaturedCarousel.constructor | client/src/components/manga/FeaturedMangaCarousel.tsx:15-16 | The carousel opens on the first slide. |
| Carousel.FeaturedCarousel.NextSlide | client/src/components/manga/FeaturedMangaCarousel.tsx:18-20 | The forward arrow and the timer: the next index, kept in range. |
| Carousel.FeaturedCarousel.PrevSlide | client/src/components/manga/FeaturedMangaCarousel.tsx:22-24 | The back arrow: the previous index, kept in range. |
| Carousel.FeaturedCarousel.SelectSlide | client/src/components/manga/FeaturedMangaCarousel.tsx:102-105 | A dot shows its own slide. |

## Left out

- Storage.MemStorage.GetFeaturedManga: the random shuffle (`sort(() => Math.random() - 0.5)`) is a parameter, any permutation of the catalog. The contract states what holds for every shuffle, not the distribution.
- Creation times: `new Date()` is the clock reading `now`, a parameter that never goes backwards. Dates are natural numbers, and the ordering by `getTime()` is ordering by that number.
- Text.Lower: lower-cases ASCII letters only. `toLowerCase` on other Unicode letters is not modelled.
- Request parsing: zod validation and its 400 "Invalid ... data" replies are left out. A handler receives an already parsed insert or patch, and `parseInt` is an id that parsed or did not (`Option<int>`).
- Server errors: the 500 replies in the `catch` blocks are left out. The store never throws in this model.
- Session plumbing: Express, cookies and `req.session.destroy` (and its 500 on failure) are left out. The session is an object with one `user` field.
- Routes that only pass a store listing through with 200 have no route member of their own. These are all titles, featured, trending, latest, by genre, by category, a title's chapters, latest chapters, genres and categories. The storage functions they call are modelled, and the 400 for an unparsable genre or category id follows the same pattern as `MangaDetails`.
- Comments and social login have no routes in server/routes.ts. Their storage operations are modelled.
- Carousel.FeaturedCarousel: the slide count is fixed when the carousel is built. A new featured list of a different length, and the five-second timer itself, are not modelled; a timer tick is one call of `NextSlide`.
- Carousel.FeaturedCarousel.NextSlide: requires at least one slide. With none, JavaScript's `% 0` gives `NaN`, which the model does not represent. The arrows and the timer run only when there are at least two slides.
- MangaReader: rendering of the pages, the auto-hiding controls and the keyboard and fullscreen handling are not modelled.
- Routes.PutChapterAsWritten: ensures only the store's own invariant and unique usernames, not that every chapter has a title, because the code as written does not keep that (see Findings).

## Findings

| source | as written | input that shows it | evidently intended | confidence | as-written member | corrected member |
|---|---|---|---|---|---|---|
| server/routes.ts:409-431 | PUT /api/chapters/:id stores a patched `mangaId` without checking that the title exists, so a chapter can point at no title. | A store with title 1 and its chapter 1; an administrator sends `{ "mangaId": 2 }` to `/api/chapters/1`. | Reply 404 "Manga not found" when the patch names a missing title, as POST /api/chapters does at server/routes.ts:392-395. | not executed | Routes.AsWrittenUpdateOrphans | Routes.PutChapterChecked |
| server/routes.ts:323-340 | DELETE /api/manga/:id runs the chapter cascade before it learns that the title is missing, so on a store where a chapter names a missing title (reachable through the PUT above) it answers 404 yet removes chapters. | The orphaned store of the row above; an administrator sends DELETE `/api/manga/2`. | A 404 that changes nothing, which holds once every chapter keeps its title, as the corrected PUT ensures. | not executed | Routes.DeleteAfterOrphanExample | Routes.PutChapterChecked |
