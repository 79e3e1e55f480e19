# Manga library server: catalog, scan and metadata sync in Dafny

This project models the core of a manga library server written in TypeScript
for Deno. It has four parts:

- **The catalog store** (`src/db.ts`). A Deno KV store holds:
  - a manga-id counter;
  - manga records under `[mangas, id]`, indexed by directory name under `[mangasByPath, pathName]`;
  - chapter records under `[chapters, id, pathName]`, indexed by number under `[chapterNumber, id, n]`;
  - the source and category tables and their membership keys.
- **The library scan** (`src/server.ts`, `scanLibrary`). It walks
  `<root>/<source>/<manga>/<entry>`. It adds each new manga directory, picks
  up a `cover` entry and collects the `.cbz` archives. It then sorts them by the
  first number in their names and stores them as chapters 1..n.
- **The metadata sync** (`src/tachidesk.ts`). It takes the first manga a
  Tachidesk server returns and copies six metadata fields into the local
  record. It matches each remote chapter to a local chapter by slug and
  overwrites that chapter's title, date and scanlator. It also decides whether
  to download a cover, and from which URL.
- **String helpers** (`src/utils.ts`). These are `smartSort`,
  `removeScanlator`, the MIME/extension table, the extension choice of
  `downloadCover`, `omit` and `createKeyValueObject`.

## Module layout

| file | module | what it holds |
|---|---|---|
| `wrappers.dfy` | `Wrappers` | `Option`, standing for JavaScript's `null`/`undefined` results |
| `models.dfy` | `Models` | `Status`, `Manga` and `Chapter` (`src/models.ts`); optional fields are `Option`s and dates are integer milliseconds |
| `strings.dfy` | `Strings` | the JavaScript string operations the core uses (`indexOf`, `lastIndexOf`, `includes`, `startsWith`, `split`, `join`, `replace` of the first occurrence, ASCII `toLowerCase`) |
| `utils.dfy`, `utils_examples.dfy` | `Utils`, `UtilsExamples` | `src/utils.ts` and worked `removeScanlator` examples |
| `catalog.dfy` | `Catalog` | the store: keys and values, the invariant `WellFormed`, read functions, write transitions `…In`, and the class `Db` |
| `scanner.dfy` | `Scanner` | `scanLibrary`: the directory tree as a value, the scan as recursive functions of the store, and methods proved against them |
| `tachidesk.dfy` | `Tachidesk` | `syncTachidesk` and `updateCovers` |

### How the store is modelled

- **The store.** It is a `map<Key, Value>`. A key is a sequence of parts: the
  prefix, then strings or numbers. That lets the key `addChapter` checks,
  `[chapters, id, pageCount]`, be written literally. Its last part is a number,
  so it can never coincide with a chapter record key.
- **Reads and writes.** The getters are functions of the map. Each write is a
  method of `Db` (`modifies this`) whose postcondition sets `kv` equal to a
  pure transition of the old map.
- **`WellFormed`.** Every write keeps this invariant. It says:
  - the counter is present and at least 1;
  - every entry has one of the shapes the writes produce;
  - the path-name index points at an existing manga record;
  - the chapter-number index points at an existing chapter record;
  - every chapter record belongs to a stored manga;
  - every stored manga id is below the counter. Ids come only from the
    counter, and the counter only goes up, so the counter's value has never
    been handed out (`NextIdIsFresh`).
- **Writes under a numeric id.** `updateManga`, and `addChapter` and
  `updateChapter` given a number, write under that id without checking it.
  Their `Db` methods require the id to name a stored manga. Every caller in
  the code passes such an id: the scan passes the id `addManga` has just
  returned (`src/server.ts:53-56`, `src/server.ts:101`), and the sync passes
  the id of the record it was handed (`src/tachidesk.ts:97`,
  `src/tachidesk.ts:105-111`).

### How the scan and the sync are modelled

- **The scan.** `ScanLibrary` and its helper methods run the source's loops
  against a `Db`. Their postconditions equal the recursive functions
  `ScanSources`, `ScanMangas`, `ScanManga` and `ScanEntries`. The lemmas about
  what a scan achieves are stated on those functions.
- **The sync.** `SyncTachidesk` runs the chapter loop against a `Db`. Its
  postcondition equals the function `Sync`.

### Inputs standing in for I/O

These are inputs or parameters of the model:
- the directory listings;
- each entry's birth time;
- the entry names inside each archive;
- the configuration flags;
- the current time;
- the provider's response;
- `slugify`;
- the origin of the provider URL.

### Where the code departs from the documented design

The model follows the code in each case.

- **Skipping a known manga.** The code skips a directory whose name is
  already indexed, unless `rescanManga` is set (`src/server.ts:26`). Nothing
  compares chapter counts or checks for `COMPLETED`. There is no guard against
  two scans running at once.
- **Chapter matching.** The loop runs over the *remote* chapters
  (`src/tachidesk.ts:102-114`). Each is matched to the first local chapter
  whose `slugify(pathName)` equals its own slug.
  - `removeScanlator` is not applied first.
  - A remote chapter with no match is not skipped. `chapters[-1]` is
    `undefined`, so the write that follows has no path name and throws. The
    model ends the sync there with `Failed`, keeping the writes already done.
  - `pageCount` is kept, not taken from the provider.
- **No retry around the sync.** `syncTachidesk` is not wrapped in a retry and
  is called without `await` (`src/server.ts:109`).
- **The scan clears the cover.** The scan hands the sync the record it built
  before the entry loop, and that record has no cover. When the provider
  returns a manga, the sync's `updateManga` therefore stores the record
  without the cover the scan had just set (`SyncAfterScanDropsCover`).
- **The already-added check never matches.** This check
  (`src/server.ts:62-67`) runs against the id `addManga` has just handed out
  (`src/server.ts:42`). The chapters of that id are written only after the
  entry loop (`src/server.ts:97-103`), so no chapter is stored under it yet.
  Every `.cbz` entry is therefore collected, and `rescanChapters` makes no
  difference (`FreshMangaCollectsEveryArchive`). The check also looks up the
  full file name, `.cbz` included, while chapters are stored under the name
  with `.cbz` removed.

## Model

| member | source | states |
|---|---|---|
| Catalog.PrefixSpelling | src/db.ts:6-16 | `P` maps every prefix name to itself, and two prefixes with the same spelling are the same prefix |
| Catalog.WellFormedHasCounter | src/db.ts:21-23 | a store in which the module has loaded has a counter of at least 1 |
| Catalog.InitIn | src/db.ts:21-23 | a present counter is left alone; a missing one is created with value 1 |
| Catalog.InitIdempotent | src/db.ts:21-23 | the load-time step yields a well-formed store with counter ≥ 1, keeps every existing entry, and a second run changes nothing |
| Catalog.Db.Open | src/db.ts:18-23 | opening a store these operations wrote (entries of the written shapes, manga ids below the counter) gives a valid store equal to the load-time step of it |
| Catalog.GuardAbsent | src/db.ts:188 | the key `addChapter` checks, `[chapters, id, pageCount]`, is absent from every store whose entries have the shapes the writes produce |
| Catalog.IdWithPathName | src/db.ts:152-154 | an id is returned exactly when the path-name index holds a number for the name, and it is that number |
| Catalog.GetManga | src/db.ts:156-161 | a record is returned exactly when the identifier resolves and a manga record is stored under that id, and it is that record |
| Catalog.GetChapterPathName | src/db.ts:210-222 | a path name is returned exactly when the identifier resolves and a name is stored under `[chapterNumber, id, n]`, and it is that name |
| Catalog.GetChapter | src/db.ts:233-241 | a chapter is returned exactly when the identifier resolves and a chapter record is stored under `[chapters, id, path]`, and it is that record |
| Catalog.IsMangaAdded | src/db.ts:243-245 | true exactly when the path-name index has the name |
| Catalog.IsChapterAdded | src/db.ts:247-256 | undefined exactly for an unresolved manga; otherwise true exactly when a chapter is stored under that path name |
| Catalog.InsertMangaIn | src/db.ts:117-128 | the atomic commit of `addManga` raises the counter by exactly one |
| Catalog.AddMangaIn | src/db.ts:115-145 | the whole `addManga` raises the counter by exactly one |
| Catalog.AddMangaIndexes | src/db.ts:117-140 | after `addManga` the id is the old counter; the path index and `getManga` by path or by id give the record with that id; the source, the "Default" category, both category links and the source link are present |
| Catalog.AddMangaFrame | src/db.ts:117-140 | `addManga` adds exactly its eight keys and leaves every other entry unchanged |
| Catalog.AddMangaKeepsOther | src/db.ts:117-140 | an entry outside the eight keys `addManga` writes keeps its value |
| Catalog.ReAddKeepsOldRecord | src/db.ts:117-128 | in a well-formed store, re-adding an indexed path name hands out an id other than the indexed one, points the index at it, and the record under the old id is still there unchanged |
| Catalog.AddMangaKeepsRecords | src/db.ts:117-128 | in a well-formed store, `addManga` writes its record under an id no record has, and every stored record keeps its value |
| Catalog.SetCounterKeepsWellFormed | src/db.ts:126 | raising the counter keeps the invariant and sets the counter to the new value |
| Catalog.NextIdIsFresh | src/db.ts:117-128 | in a well-formed store, no manga record and no chapter record is stored under the counter's value |
| Catalog.ConsecutiveIds | src/db.ts:117-128 | two adds in a row get ids c and c + 1, both records are stored, and the counter ends at c + 2 |
| Catalog.AddSourceAndCategoryIdempotent | src/db.ts:65-75 | adding the same source or category twice gives the same store as adding it once |
| Catalog.AddMangaToCategoryLinks | src/db.ts:81-95 | for a known manga, the category and both membership keys are written, and no other key is added |
| Catalog.UnknownMangaIsNoOp | src/db.ts:46-55 | in a well-formed store, for an identifier that resolves to no id: a path name is not indexed at all; `addMangaToCategory`, `addChapter` and `updateChapter` leave the store unchanged; `getManga`, `getChapter` and `getChapterWithNumber` give nothing; `isChapterAdded` is undefined |
| Catalog.AddChapterReplaceIrrelevant | src/db.ts:188-198 | since the checked key is never present, `replace` makes no difference, and the record and the number index are always written |
| Catalog.AddChapterThenGet | src/db.ts:179-222 | after `addChapter` the chapter is found by its path name and by its number, and `isChapterAdded` is true |
| Catalog.UpdateMangaThenGet | src/db.ts:147-150 | `updateManga` stores the record under its own id and changes no other entry |
| Catalog.UpdateChapterThenGet | src/db.ts:224-231 | `updateChapter` stores the record under its path name and changes no other entry, the number index included |
| Catalog.AddSourceKeepsWellFormed | src/db.ts:65-67 | `addSource` keeps the store invariant |
| Catalog.AddCategoryKeepsWellFormed | src/db.ts:73-75 | `addCategory` keeps the store invariant |
| Catalog.AddMangaToCategoryKeepsWellFormed | src/db.ts:81-95 | `addMangaToCategory` keeps the store invariant |
| Catalog.InsertMangaKeepsWellFormed | src/db.ts:123-129 | the atomic commit keeps the invariant; the path index points at the record written in the same commit |
| Catalog.AddMangaKeepsWellFormed | src/db.ts:115-145 | `addManga` keeps the store invariant |
| Catalog.UpdateMangaKeepsWellFormed | src/db.ts:147-150 | `updateManga` keeps the store invariant |
| Catalog.AddChapterKeepsWellFormed | src/db.ts:179-199 | `addChapter` keeps the store invariant; the number index points at the chapter written with it |
| Catalog.UpdateChapterKeepsWellFormed | src/db.ts:224-231 | `updateChapter` keeps the store invariant |
| Catalog.Db.AddSource | src/db.ts:65-67 | the store becomes the old one with `[sources, name] → name` and stays valid |
| Catalog.Db.AddCategory | src/db.ts:73-75 | the store becomes the old one with `[categories, name] → name` and stays valid |
| Catalog.Db.AddMangaToCategory | src/db.ts:81-95 | nothing for an unresolved manga, else the category and both membership keys; the store stays valid |
| Catalog.Db.AddManga | src/db.ts:115-145 | one successful attempt: returns the old counter as the id and leaves the store equal to `AddMangaIn` of the old one, still valid |
| Catalog.Db.UpdateManga | src/db.ts:147-150 | for a stored manga, the store becomes the old one with the record under its id and stays valid |
| Catalog.Db.AddChapter | src/db.ts:179-199 | (a numeric id must name a stored manga) nothing for an unresolved manga; else the guard deletion (when `replace` is set) followed by the guarded writes; the store stays valid |
| Catalog.Db.UpdateChapter | src/db.ts:224-231 | (a numeric id must name a stored manga) nothing for an unresolved manga, else the record under its path name; the store stays valid |
| Catalog.Db.GetMangaChapters | src/db.ts:163-167 | an empty list for an unresolved manga, else each stored chapter of the manga exactly once and nothing else |
| Catalog.Db.IterChapters | src/db.ts:27-35 | the list loop collects the value of every entry under `[chapters, id]`, each once, with distinct path names |
| Scanner.Extname | src/server.ts:47 | the POSIX extension is empty, or a proper suffix of the name that starts with its only dot |
| Scanner.ChapterExtension | src/server.ts:60 | an entry passes the `.cbz` filter exactly when its name is longer than ".cbz" and ends with it |
| Scanner.CoverNameIff | src/server.ts:49-52 | the cover test holds exactly when the text before the first `.` is "cover", that is, when the name is "cover" or starts with "cover." (the `includes` half adds nothing) |
| Scanner.FirstSegmentIsCover | src/server.ts:51 | the first `.`-segment is "cover" exactly when the name is "cover" or starts with "cover." |
| Scanner.ChapterPathNameStripsSuffix | src/server.ts:70 | `base.cbz`, with no other dot, gets the path name `base` |
| Scanner.PageCount | src/server.ts:74-90 | the page count is 1 outside a deep scan and otherwise the number of archive entries other than "ComicInfo.xml" |
| Scanner.NewRecord | src/server.ts:36-40 | a new record has the directory name as path name, the source directory name as source, status UNKNOWN and every other field unset |
| Scanner.Insert | src/server.ts:97-99 | one insertion step of the sort gives a permutation of the list plus the inserted draft |
| Scanner.Sort | src/server.ts:97-99 | the sort returns a permutation of the drafts |
| Scanner.InsertSorted | src/server.ts:97-99 | inserting into a list sorted by first integer keeps it sorted |
| Scanner.SortSorted | src/server.ts:97-99 | the sorted list is ordered by the first integer of the path names |
| Scanner.InsertWithRank | src/server.ts:97-99 | an inserted draft goes ahead of the drafts of its own rank, which keep their order |
| Scanner.SortStable | src/server.ts:97-99 | the sort is stable: the drafts of each rank keep their input order |
| Scanner.ChapterListNumbers | src/server.ts:97-103 | the chapters are numbered exactly 1..n in list order, their first integers do not decrease, they have no title or scanlator, and they are a permutation of the drafts |
| Scanner.InsertDistinct | src/server.ts:97-99 | inserting a draft with a new path name keeps path names distinct |
| Scanner.SortDistinct | src/server.ts:97-99 | sorting keeps path names distinct |
| Scanner.CollectsIff | src/server.ts:60-67 | an entry is collected exactly when it ends in ".cbz" and either `rescanChapters` is set or nothing is stored under its full file name |
| Scanner.CollectDrafts | src/server.ts:60-92 | the entry loop collects at most one draft per entry |
| Scanner.DraftsFromArchives | src/server.ts:60-92 | each collected draft is the draft of some collected `.cbz` entry |
| Scanner.CollectDraftsIgnoresRecord | src/server.ts:53-64 | a cover update of the manga record never changes which entries count as already added |
| Scanner.ScanEntriesSplits | src/server.ts:46-95 | the entry loop amounts to two independent passes: the store gets the record with the last cover entry, and the drafts are the collected archives in directory order |
| Scanner.ScanEntries | src/server.ts:46-95 | the entry loop leaves the counter unchanged |
| Scanner.AddChapters | src/server.ts:97-103 | the chapter inserts leave the counter unchanged |
| Scanner.ScanManga | src/server.ts:36-103 | adding one manga directory raises the counter by exactly one |
| Scanner.ScanMangas | src/server.ts:23-110 | the manga loop keeps the counter present |
| Scanner.ScanSources | src/server.ts:16-111 | the source loop keeps the counter present |
| Scanner.AddChaptersFrame | src/server.ts:97-103 | the chapter inserts remove no key and only write chapter records and chapter-number entries |
| Scanner.AddChaptersWrites | src/server.ts:97-103 | every entry other than the chapters' own record and number keys keeps its value |
| Scanner.AddChaptersIndexes | src/server.ts:97-103 | after inserting chapters with distinct path names and numbers, each is found under its number |
| Scanner.ScanEntriesKeepsWellFormed | src/server.ts:46-95 | the entry loop keeps the store invariant and removes no key |
| Scanner.AddChaptersKeepsWellFormed | src/server.ts:97-103 | the chapter inserts keep the store invariant |
| Scanner.ScanMangaKeepsWellFormed | src/server.ts:36-103 | adding a manga directory keeps the invariant, removes no key and indexes the directory name |
| Scanner.ScanMangasKeepsWellFormed | src/server.ts:23-110 | the manga loop keeps the invariant and removes no key |
| Scanner.ScanSourcesKeepsWellFormed | src/server.ts:16-111 | a whole scan keeps the invariant and removes no key |
| Scanner.ScanMangasIndexes | src/server.ts:23-110 | after the manga loop every manga directory of the source is indexed by name |
| Scanner.ScanSourcesIndexes | src/server.ts:16-111 | after a scan every visited source and manga directory is indexed |
| Scanner.IndexedMangasAreSkipped | src/server.ts:26-28 | with `rescanManga` off, a source whose manga directories are all indexed gets no write |
| Scanner.IndexedLibraryIsNoOp | src/server.ts:16-28 | with `rescanManga` off, scanning an indexed library writes nothing and hands nothing to the sync |
| Scanner.RescanIsNoOp | src/server.ts:11-112 | with `rescanManga` off, a second scan of the same library, at any later time, changes nothing |
| Scanner.FileUnderRootStops | src/server.ts:16-17 | a file directly under the root ends the scan: the sources after it are never visited |
| Scanner.MangaSkipRule | src/server.ts:23-28 | a file, or an indexed name with `rescanManga` off, gets no write; any other directory is added again under a fresh id; the rule tests only those two conditions |
| Scanner.ScanMangaRecord | src/server.ts:36-58 | an added directory is indexed under the old counter; its stored record carries the last cover entry, while the record handed to the sync has none |
| Scanner.CollectDraftsWithoutChapters | src/server.ts:62-67 | when no chapter is stored for the id, the entries collected are the same with `rescanChapters` off as with it on |
| Scanner.FreshMangaCollectsEveryArchive | src/server.ts:42-67 | in a well-formed store, `isChapterAdded` gives false for every entry of a newly added directory, so its entry loop and the whole directory's scan are the same with `rescanChapters` off as with it on |
| Scanner.AddMangaAddsNoChapter | src/server.ts:42 | in a well-formed store, no chapter record exists under the id `addManga` has just handed out |
| Scanner.ScanEntriesIgnoresRescan | src/server.ts:46-95 | with no chapter stored for the record's id, the entry loop gives the same store and drafts with `rescanChapters` off as with it on |
| Scanner.MangaEntriesKeepsWellFormed | src/server.ts:42-95 | `addManga` followed by the entry loop keeps the invariant, keeps every key and leaves the new record stored |
| Scanner.ChapterListDistinct | src/server.ts:97-103 | numbering drafts with distinct path names gives chapters with distinct path names and distinct numbers |
| Scanner.ScanMangaChapters | src/server.ts:97-103 | if the collected archives have distinct path names, chapter number n of the new manga is the n-th chapter of the sorted list, for n = 1..count |
| Scanner.ScanLibrary | src/server.ts:11-112 | the scan leaves the store, still valid, equal to `ScanSources` of the old one, and returns the records handed to the sync |
| Scanner.ScanSource | src/server.ts:23-110 | the manga loop of one source leaves the store equal to `ScanMangas` of the old one |
| Scanner.VisitManga | src/server.ts:23-110 | one pass of the manga loop: a skipped directory changes nothing and hands nothing on; any other is scanned as `ScanManga` |
| Scanner.ScanOneManga | src/server.ts:36-109 | one manga directory leaves the store equal to `ScanManga` of the old one and returns the record handed to the sync |
| Scanner.CollectEntries | src/server.ts:46-95 | the entry loop leaves the store equal to `ScanEntries` of the old one and returns its drafts |
| Scanner.VisitEntry | src/server.ts:47-92 | one entry applies the cover step to the store and yields a draft exactly when the entry is collected |
| Scanner.AddNumbered | src/server.ts:97-103 | the chapter inserts, one after the other, leave the store equal to `AddChapters` of the old one |
| Tachidesk.MergeManga | src/tachidesk.ts:85-95 | the merged record keeps id, path name, source and cover, and takes title, artist, author, description, genres (from `genre`) and status from the first node |
| Tachidesk.MergeLastWins | src/tachidesk.ts:87-95 | merging again with a second node overrides the first merge completely |
| Tachidesk.Slugs | src/tachidesk.ts:100 | one slug per local chapter, in order, each the slug of its path name |
| Tachidesk.UpdatedChapter | src/tachidesk.ts:104-112 | a matched chapter keeps path name, number and page count, and gets the remote name as title, the remote date and the remote scanlator |
| Tachidesk.CoverUrl | src/tachidesk.ts:25-34 | no download exactly when some entry name contains "cover"; otherwise the URL is the origin followed by the thumbnail path |
| Tachidesk.DirHasCover | src/tachidesk.ts:23-29 | the flag loop ends true exactly when some entry name contains "cover" |
| Tachidesk.LastMatch | src/tachidesk.ts:102-114 | a reported match is a remote chapter whose first slug match is the given local position |
| Tachidesk.Sync | src/tachidesk.ts:81-83 | the sync ends as not found exactly when there is no node, and then writes nothing |
| Tachidesk.SyncChaptersFrame | src/tachidesk.ts:102-114 | the chapter loop removes no key and writes only chapter records of this manga |
| Tachidesk.SyncChaptersKeepsWellFormed | src/tachidesk.ts:102-114 | the chapter loop keeps the store invariant |
| Tachidesk.SyncChaptersFailsIff | src/tachidesk.ts:102-105 | the loop fails exactly when some remote slug matches no local slug, and then it names the first such remote chapter |
| Tachidesk.SyncChaptersLastMatchWins | src/tachidesk.ts:102-114 | when every remote chapter matched, each local chapter holds the values of the last remote chapter matched to it, and an unmatched one is as before |
| Tachidesk.SyncStoresMerged | src/tachidesk.ts:85-118 | with a node, the merged record is what the result carries and what is stored under the manga's id |
| Tachidesk.SyncFailsIff | src/tachidesk.ts:102-105 | with a node, the sync fails exactly when some remote chapter's slug matches no local chapter's |
| Tachidesk.SyncUpdatesChapters | src/tachidesk.ts:99-116 | after a successful sync over the listed chapters, each holds its last match's values or its own, and the cover URL is the one `updateCovers` builds |
| Tachidesk.SyncAfterScanDropsCover | src/server.ts:109 | the scan stores the directory's cover, and a sync with a node right after it stores the record without one |
| Tachidesk.SyncTachidesk | src/tachidesk.ts:38-119 | for a stored manga, the sync leaves the store valid and equal to `Sync` of the old one over the chapter list it read, which lists the manga's chapters once each |
| Utils.FirstIntReadsFirstRun | src/utils.ts:27 | the first integer of `before + digits + after` is the value of `digits` when `before` has no digit and `after` does not start with one |
| Utils.FirstIntNoDigits | src/utils.ts:27 | a name without digits has first integer 0 |
| Utils.SmartSortComparator | src/utils.ts:26-30 | `smartSort(a, a) == 0`, it is antisymmetric and transitive, and it is negative exactly when a's first integer is smaller |
| Utils.NaturalOrderExample | src/utils.ts:26-30 | "Chapter 2" sorts before "Chapter 10" and "Chapter 1" before "Chapter 2" |
| Utils.RemoveScanlator | src/utils.ts:78-89 | the title loses its first `_`-segment and that underscore exactly when there is an underscore, the second segment lowercased starts with "ch" or is "prologue", and the first lowercased does not contain "chapter"; otherwise it is unchanged |
| Utils.RemoveScanlatorIsSuffix | src/utils.ts:78-89 | the result is always a suffix of the title, so never longer |
| Utils.RemoveScanlatorOfTagged | src/utils.ts:78-89 | `tag_marker_tail` becomes `marker_tail` exactly when the marker looks like a chapter and the tag does not mention "chapter" |
| UtilsExamples.RemoveScanlatorStripsTagged | src/utils.ts:78-89 | a tagged title with a chapter-like marker loses its tag |
| UtilsExamples.RemoveScanlatorStripsExample | src/utils.ts:78-89 | "SomeGroup_Chapter_12" becomes "Chapter_12" |
| UtilsExamples.RemoveScanlatorKeepsExample | src/utils.ts:78-89 | "Chapter_Twelve_Special" is kept as it is |
| Utils.FindIndex | src/utils.ts:55-57 | the first position holding the value, or -1 exactly when it is absent |
| Utils.MimeExtension | src/utils.ts:40-48 | a type has an extension exactly when it is in the table, and it is the extension next to it |
| Utils.ExtensionToMime | src/utils.ts:49-59 | the lookup always gives one of the table's types |
| Utils.ExtensionsDistinct | src/utils.ts:40-48 | the table's seven types and seven extensions are pairwise distinct, and no extension has a dot |
| Utils.ExtensionRoundTrip | src/utils.ts:40-58 | for every extension in the table, the extension of its type is itself |
| Utils.MimeRoundTrip | src/utils.ts:40-58 | for every type in the table, the type of its extension is itself |
| Utils.FileNameMime | src/utils.ts:50-53 | a file name is typed by the text after its last dot |
| Utils.CoverPngExample | src/utils.ts:49-58 | "cover.png" is typed image/png |
| Utils.UnknownExtensionIsJpeg | src/utils.ts:55-58 | an extension outside the table makes `findIndex` give -1, and `.at(-1)` gives image/jpeg |
| Utils.CoverExtension | src/utils.ts:68-72 | always a table extension: the one of the announced type when it is in the table, "jpg" when the header is absent or unknown |
| Utils.CoverFileTypeRoundTrip | src/utils.ts:68-75 | a cover saved as `path.ext` is later typed as the announced type when that is in the table, and as image/jpeg otherwise |
| Utils.Omit | src/utils.ts:16-24 | the result has exactly the keys not listed, with their values unchanged |
| Utils.OmitCompose | src/utils.ts:16-24 | omitting in two steps is omitting all the keys at once, and omitting none is the identity |
| Utils.CreateKeyValueObject | src/utils.ts:91-98 | the object has exactly the given keys, each mapped to itself |

## Left out

- **The HTTP surface.** The routes, middlewares and error handlers are not
  part of this model. Neither is the entry point, which calls the scan.
- **Configuration.** The configuration module is not modelled; its flags are
  the `Config` parameter (`rescanManga`, `rescanChapters`, `deepScan`).
  `scanLibrary`'s `deep` option changes nothing but a log line.
- **I/O.** These are replaced by inputs given as values:
  - reading directories;
  - `statSync`;
  - opening archives;
  - `fetch`, GraphQL and JSON parsing;
  - writing the cover file;
  - the spinner and the logging.

  `setImmediate` yielding is dropped. `downloadCover` is modelled only through
  its extension and file-name choice (`CoverExtension`, `CoverFilePath`). Its
  HTTP status check is left out.
- **Directory order.** The entries of each directory come in the order the
  input sequence gives. Deno makes no promise about that order.
- **`iterList` order.** Deno KV returns keys in a cross-type order that is not
  modelled. `GetMangaChapters` promises only that every chapter is listed once.
- **Concurrency.**
  - The optimistic retry of `addManga` (check the counter, up to 20 attempts)
    is one attempt whose commit succeeds. Run sequentially, the counter check always
    passes.
  - The un-awaited `db.delete`, `updateManga` and `syncTachidesk` are run to
    completion, in their place in the sequence.
  - The `Promise.all` over the chapter inserts runs the inserts one after the
    other.
- **The sync as part of a scan.** The sync that `scanLibrary` starts for each
  added manga is not part of `ScanLibrary`. `ScanLibrary` returns the records it
  hands on, and `SyncTachidesk` and `SyncAfterScanDropsCover` take them from
  there.
- **Time.** One `now` gives the fallback upload date for every entry of a
  scan. JavaScript `Date` values, and `Number(...)` of the remote date, are
  integer milliseconds.
- **Numbers.** The counter is an unbounded `nat`, a `Deno.KvU64`, and its
  64-bit wrap-around is not modelled. Floating-point precision of JavaScript
  numbers is not modelled: `parseInt` of a long digit run is exact here.
- **Library functions stand-ins.** `slugify` is an uninterpreted function
  parameter. `path.join` and `URL.origin` are not modelled: the origin is an
  input string. `toLowerCase` is ASCII-only.
- **`getMangaPath` and `getChapterPath`.** These two helpers
  (`src/utils.ts:32-38`) only join paths for I/O and are not modelled. So are
  the route-only readers: `getSources`, `getCategories`, `getAllMangas`,
  `getMangasInCategory`, `getMangaInSource`, `dereference` and
  `getMangaWithChapters`.
- **Prototype keys.** `mimeExtensionMap[contentType]` could find an inherited
  property, such as `constructor`, for a content type with that name; the model
  treats every such name as unknown.
- **The Go tree.** The superseded Go implementation (`database/`, `models/`,
  `server/`, `config/`, `cmd/`) is not part of this model.
- Scanner.ScanMangaChapters: assumes the collected archives have distinct path
  names. Dropping the first ".cbz" can make two file names collide, for example
  "a.cbzb.cbz" and "ab.cbz.cbz" both give "ab.cbz". Then the later write
  replaces the earlier record, and both chapter numbers point at it.
- Scanner.Extname: models POSIX `extname` of a bare file name only, not of
  paths with separators.
- Catalog.Db.UpdateManga, Catalog.Db.AddChapter, Catalog.Db.UpdateChapter:
  require a numeric id to name a stored manga. The code would also write under
  an id that names no manga, but none of its callers does so, and such a write
  would break the id invariant.
- Catalog.Db.AddManga: returns the id of one successful attempt. Exhausting
  the 20 retries is not modelled.
