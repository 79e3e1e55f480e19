/**
 * The library scan of src/server.ts (`scanLibrary`).
 *
 * The directory tree is an input value: a sequence of source directories,
 * each holding manga directories, each holding entries. Each entry's
 * birth time and, for a deep scan, the names inside its archive are part of the
 * input. The configuration flags and the current time are parameters.
 */
module Scanner {
  import opened Wrappers
  import opened Strings
  import opened Models
  import opened Utils
  import opened Catalog

  // ---------------------------------------------------------------------------
  // The input tree
  // ---------------------------------------------------------------------------

  /** An entry of a manga directory. */
  datatype Entry = Entry(name: string, birthtime: Option<int>, archiveEntries: set<string>)

  /** An entry of a source directory. */
  datatype MangaDir = MangaDir(name: string, isFile: bool, entries: seq<Entry>)

  /** An entry of the library root. */
  datatype SourceDir = SourceDir(name: string, isFile: bool, mangas: seq<MangaDir>)

  /** The flags of the configuration that the scan reads. */
  datatype Config = Config(rescanManga: bool, rescanChapters: bool, deepScan: bool)

  /** A chapter before the sort gives it a number. */
  datatype Draft = Draft(pathName: string, pageCount: int, uploadDate: int)

  // ---------------------------------------------------------------------------
  // Entry classification
  // ---------------------------------------------------------------------------

  /**
   * POSIX `extname` of a name without separators: from the last `.` on, but
   * empty when there is no dot, when the only dot that counts is the first
   * character, or for "..".
   */
  function Extname(name: string): (ext: string)
    ensures ext == "" || (0 < |name| - |ext| && name[|name| - |ext|..] == ext && ext[0] == '.' && '.' !in ext[1..])
  {
    var d := LastIndexOf(name, '.');
    if d <= 0 || name == ".." then "" else name[d..]
  }

  const CbzExtension: string := ".cbz"
  const CoverName: string := "cover"

  /** An entry is a chapter archive exactly when its name is longer than ".cbz" and ends with it. */
  lemma {:induction false} ChapterExtension(name: string, ext: string)
    requires ext == CbzExtension
    ensures Extname(name) == ext <==> |name| > |ext| && name[|name| - |ext|..] == ext
  {
    var n := |name|;
    if n > 4 && name[n - 4..] == ext {
      assert name[n - 4] == '.';
      var d := LastIndexOf(name, '.');
      assert d == n - 4;
      assert name != "..";
    }
  }

  /** The cover test: the name mentions "cover" and its text before the first `.` is "cover". */
  predicate IsCoverName(name: string) {
    Contains(name, CoverName) && Split(name, '.')[0] == CoverName
  }

  /** The text before the first `.`, the first segment of `split(".")`. */
  lemma FirstSegment(name: string)
    ensures Split(name, '.')[0] == if '.' in name then name[..IndexOf(name, '.')] else name
  {
  }

  /** The cover test in closed form: the name is "cover" or starts with "cover.". */
  predicate CoverShape(name: string) {
    StartsWith(name, CoverName) && (|name| == |CoverName| || name[|CoverName|] == '.')
  }

  /**
   * The `includes("cover")` half of the test is implied by the other half,
   * and the test is the closed form above.
   */
  lemma {:induction false} CoverNameIff(name: string, cover: string)
    requires cover == "cover"
    ensures IsCoverName(name) <==> Split(name, '.')[0] == cover
    ensures IsCoverName(name) <==> CoverShape(name)
  {
    assert CoverName == cover;
    FirstSegmentIsCover(name, cover);
    if CoverShape(name) {
      assert StartsWith(name, cover);
      assert Contains(name, cover);
    }
  }

  /** The first dot-separated segment is `cover` exactly when the name has the closed shape. */
  lemma FirstSegmentIsCover(name: string, cover: string)
    requires cover == "cover"
    ensures Split(name, '.')[0] == cover <==> CoverShape(name)
  {
    assert CoverName == cover;
    FirstSegment(name);
    if '.' in name {
      DottedFirstSegment(name, cover);
    } else {
      UndottedFirstSegment(name, cover);
    }
  }

  lemma DottedFirstSegment(name: string, cover: string)
    requires cover == "cover" && '.' in name
    ensures name[..IndexOf(name, '.')] == cover <==> CoverShape(name)
  {
    assert CoverName == cover;
    var i := IndexOf(name, '.');
    if name[..i] == cover {
      assert |name[..i]| == 5;
      assert name[..5] == cover;
    }
    if CoverShape(name) {
      assert name[..5] == cover;
      assert '.' !in name[..5];
      IndexAtLeast(name, '.', 5);
      IndexOfAt(name, '.', 5);
    }
  }

  lemma UndottedFirstSegment(name: string, cover: string)
    requires cover == "cover" && '.' !in name
    ensures name == cover <==> CoverShape(name)
  {
    assert CoverName == cover;
    if CoverShape(name) {
      assert forall j | 0 <= j < |name| :: name[j] != '.';
      assert name == name[..5];
    }
  }

  /** The chapter's path name: the name with its first ".cbz" removed. */
  function ChapterPathName(name: string): string {
    ReplaceFirst(name, Extname(name), "")
  }

  /** A name with one dot, just before "cbz", loses exactly the suffix. */
  lemma {:induction false} ChapterPathNameStripsSuffix(base: string, ext: string)
    requires ext == CbzExtension && |base| > 0 && '.' !in base
    ensures ChapterPathName(base + ext) == base
  {
    var name := base + ext;
    ChapterExtension(name, ext);
    assert name[|name| - 4..] == ext;
    var i := FindFirst(name, ext);
    assert StartsWith(name[|base|..], ext);
    assert i != -1 && i <= |base|;
    assert i == |base|;
    assert name[..i] == base;
  }

  /** `pageCount`: 1, or in a deep scan the archive's entries other than "ComicInfo.xml". */
  function PageCount(cfg: Config, e: Entry): (n: int)
    ensures n >= 0
    ensures !cfg.deepScan ==> n == 1
    ensures cfg.deepScan ==> n == |e.archiveEntries - {"ComicInfo.xml"}|
  {
    if cfg.deepScan then |e.archiveEntries - {"ComicInfo.xml"}| else 1
  }

  /** The draft an archive entry becomes; a missing birth time falls back to the clock. */
  function DraftOf(cfg: Config, now: int, e: Entry): Draft {
    Draft(ChapterPathName(e.name), PageCount(cfg, e), e.birthtime.GetOr(now))
  }

  /** Whether the entry loop collects `e` into the chapter list. */
  predicate Collects(kv: Store, id: int, cfg: Config, e: Entry) {
    Extname(e.name) == CbzExtension
    && !(!cfg.rescanChapters && IsChapterAdded(kv, ById(id), e.name) == Some(true))
  }

  // ---------------------------------------------------------------------------
  // Sort and number
  // ---------------------------------------------------------------------------

  /** The key `smartSort` compares. */
  function Rank(d: Draft): nat {
    FirstInt(d.pathName)
  }

  /** Insert before the first element that `smartSort` does not order before `d`. */
  function Insert(d: Draft, sorted: seq<Draft>): (r: seq<Draft>)
    ensures multiset(r) == multiset(sorted) + multiset{d}
    ensures |r| == |sorted| + 1
  {
    if sorted == [] || SmartSort(d.pathName, sorted[0].pathName) <= 0 then [d] + sorted
    else
      var rest := Insert(d, sorted[1..]);
      assert sorted == [sorted[0]] + sorted[1..];
      [sorted[0]] + rest
  }

  /** `chapters.sort((a, b) => smartSort(a.pathName, b.pathName))`, a stable sort. */
  function Sort(ds: seq<Draft>): (r: seq<Draft>)
    ensures multiset(r) == multiset(ds)
    ensures |r| == |ds|
  {
    if ds == [] then []
    else
      assert ds == [ds[0]] + ds[1..];
      Insert(ds[0], Sort(ds[1..]))
  }

  predicate SortedByRank(s: seq<Draft>) {
    forall i, j | 0 <= i < j < |s| :: Rank(s[i]) <= Rank(s[j])
  }

  /** The drafts of one rank, in order. */
  function WithRank(s: seq<Draft>, k: nat): seq<Draft> {
    if s == [] then [] else (if Rank(s[0]) == k then [s[0]] else []) + WithRank(s[1..], k)
  }

  /** Every element of an insertion is the inserted draft or one of the sorted list. */
  lemma {:induction false} InsertMembers(d: Draft, s: seq<Draft>, x: Draft)
    requires x in Insert(d, s)
    ensures x == d || x in s
    decreases |s|
  {
    if s != [] && SmartSort(d.pathName, s[0].pathName) > 0 && x != s[0] {
      InsertMembers(d, s[1..], x);
    }
  }

  lemma SortedHead(s: seq<Draft>, x: Draft)
    requires SortedByRank(s) && s != [] && x in s[1..]
    ensures Rank(s[0]) <= Rank(x)
  {
    var j :| 0 <= j < |s[1..]| && s[1..][j] == x;
    assert s[j + 1] == x;
  }

  lemma SortedTail(s: seq<Draft>)
    requires SortedByRank(s) && s != []
    ensures SortedByRank(s[1..])
  {
    forall i, j | 0 <= i < j < |s[1..]| ensures Rank(s[1..][i]) <= Rank(s[1..][j]) {
      assert s[1..][i] == s[i + 1] && s[1..][j] == s[j + 1];
    }
  }

  /** A head ranked no higher than every element of a sorted list keeps it sorted. */
  lemma ConsSorted(x: Draft, r: seq<Draft>)
    requires SortedByRank(r) && forall y | y in r :: Rank(x) <= Rank(y)
    ensures SortedByRank([x] + r)
  {
    var t := [x] + r;
    forall i, j | 0 <= i < j < |t| ensures Rank(t[i]) <= Rank(t[j]) {
      if i == 0 {
        assert t[j] == r[j - 1];
      } else {
        assert t[i] == r[i - 1] && t[j] == r[j - 1];
      }
    }
  }

  lemma {:induction false} InsertSorted(d: Draft, s: seq<Draft>)
    requires SortedByRank(s)
    ensures SortedByRank(Insert(d, s))
    decreases |s|
  {
    if s == [] {
      assert Insert(d, s) == [d];
    } else if SmartSort(d.pathName, s[0].pathName) > 0 {
      SortedTail(s);
      InsertSorted(d, s[1..]);
      var r := Insert(d, s[1..]);
      forall x | x in r
        ensures Rank(s[0]) <= Rank(x)
      {
        InsertMembers(d, s[1..], x);
        if x != d {
          SortedHead(s, x);
        }
      }
      ConsSorted(s[0], r);
      assert [s[0]] + r == Insert(d, s);
    } else {
      forall x | x in s
        ensures Rank(d) <= Rank(x)
      {
        if x != s[0] {
          assert x in s[1..] by {
            var j :| 0 <= j < |s| && s[j] == x;
            assert s[1..][j - 1] == x;
          }
          SortedHead(s, x);
        }
      }
      ConsSorted(d, s);
      assert [d] + s == Insert(d, s);
    }
  }

  lemma {:induction false} SortSorted(ds: seq<Draft>)
    ensures SortedByRank(Sort(ds))
  {
    if ds != [] {
      SortSorted(ds[1..]);
      InsertSorted(ds[0], Sort(ds[1..]));
    }
  }

  lemma WithRankCons(x: Draft, s: seq<Draft>, k: nat)
    ensures WithRank([x] + s, k) == (if Rank(x) == k then [x] else []) + WithRank(s, k)
  {
    assert ([x] + s)[0] == x;
    assert ([x] + s)[1..] == s;
  }

  /** Inserting puts `d` ahead of the drafts of its own rank. */
  lemma {:induction false} InsertWithRank(d: Draft, s: seq<Draft>, k: nat)
    ensures WithRank(Insert(d, s), k) == (if Rank(d) == k then [d] else []) + WithRank(s, k)
    decreases |s|
  {
    if s == [] || SmartSort(d.pathName, s[0].pathName) <= 0 {
      WithRankCons(d, s, k);
    } else {
      InsertWithRank(d, s[1..], k);
      WithRankCons(s[0], Insert(d, s[1..]), k);
      WithRankCons(s[0], s[1..], k);
      assert [s[0]] + s[1..] == s;
    }
  }

  /** The sort is stable: the drafts of each rank keep their order. */
  lemma {:induction false} SortStable(ds: seq<Draft>, k: nat)
    ensures WithRank(Sort(ds), k) == WithRank(ds, k)
  {
    if ds != [] {
      SortStable(ds[1..], k);
      InsertWithRank(ds[0], Sort(ds[1..]), k);
    }
  }

  /** The map step: the draft at rank position `i` becomes chapter `i + 1`. */
  function Numbered(sorted: seq<Draft>): (cs: seq<Chapter>)
    ensures |cs| == |sorted|
  {
    seq(|sorted|, i requires 0 <= i < |sorted| =>
      Chapter(None, sorted[i].pathName, None, sorted[i].pageCount, i + 1, sorted[i].uploadDate))
  }

  /** The chapter list one manga gets from its drafts. */
  function ChapterList(drafts: seq<Draft>): seq<Chapter> {
    Numbered(Sort(drafts))
  }

  /**
   * The numbers are exactly 1..n and follow the first digit run of the path
   * names; the chapters are the drafts, each once, with no title or scanlator.
   */
  lemma {:induction false} ChapterListNumbers(drafts: seq<Draft>)
    ensures var cs := ChapterList(drafts);
      && |cs| == |drafts|
      && (forall i | 0 <= i < |cs| :: cs[i].chapterNumber == i + 1 && cs[i].title == None && cs[i].scanlator == None)
      && (forall i, j | 0 <= i < j < |cs| :: FirstInt(cs[i].pathName) <= FirstInt(cs[j].pathName))
      && multiset(seq(|cs|, i requires 0 <= i < |cs| => Draft(cs[i].pathName, cs[i].pageCount, cs[i].uploadDate))) == multiset(drafts)
  {
    var sorted := Sort(drafts);
    SortSorted(drafts);
    var cs := ChapterList(drafts);
    var back := seq(|cs|, i requires 0 <= i < |cs| => Draft(cs[i].pathName, cs[i].pageCount, cs[i].uploadDate));
    assert back == sorted;
    forall i, j | 0 <= i < j < |cs|
      ensures FirstInt(cs[i].pathName) <= FirstInt(cs[j].pathName)
    {
      assert Rank(sorted[i]) <= Rank(sorted[j]);
    }
  }

  // ---------------------------------------------------------------------------
  // The scan as a function of the store
  // ---------------------------------------------------------------------------

  /** The store after a step, and the records handed to the metadata sync. */
  datatype ScanResult = ScanResult(kv: Store, handed: seq<Manga>)

  /** The store after a manga's entry loop, and the chapters it collected. */
  datatype EntriesResult = EntriesResult(kv: Store, drafts: seq<Draft>)

  /** Earlier results `handed` followed by the rest of the scan. */
  function Then(handed: seq<Manga>, r: ScanResult): ScanResult {
    ScanResult(r.kv, handed + r.handed)
  }

  /** The record `scanLibrary` builds for a manga directory; `addManga` fills in `id`. */
  function NewRecord(id: int, pathName: string, source: string): (m: Manga)
    ensures m.id == id && m.pathName == pathName && m.source == source && m.status == UNKNOWN
    ensures m.title == None && m.artist == None && m.author == None && m.cover == None
    ensures m.description == None && m.genres == None
  {
    Manga(id, None, pathName, None, None, source, None, UNKNOWN, None, None)
  }

  /**
   * The entry loop: a cover entry rewrites the manga record from the
   * directory's record plus that cover; a collected archive becomes a draft.
   */
  function ScanEntries(kv: Store, rec: Manga, entries: seq<Entry>, cfg: Config, now: int): (r: EntriesResult)
    ensures HasCounter(kv) ==> HasCounter(r.kv) && Counter(r.kv) == Counter(kv)
    decreases |entries|
  {
    if entries == [] then EntriesResult(kv, [])
    else
      var e := entries[0];
      var kv1 := CoverStep(kv, rec, e.name);
      var rest := ScanEntries(kv1, rec, entries[1..], cfg, now);
      if Collects(kv1, rec.id, cfg, e) then Prepend([DraftOf(cfg, now, e)], rest) else rest
  }

  lemma PrependTwice(a: seq<Draft>, b: seq<Draft>, r: EntriesResult)
    ensures Prepend(a, Prepend(b, r)) == Prepend(a + b, r)
  {
    assert a + (b + r.drafts) == (a + b) + r.drafts;
  }

  /** A cover entry (the test in its closed form, `CoverNameIff`) replaces the stored record by the directory's record with that cover. */
  function CoverStep(kv: Store, rec: Manga, name: string): Store {
    if CoverShape(name) then UpdateMangaIn(kv, rec.(cover := Some(name))) else kv
  }

  lemma ScanEntriesStep(kv: Store, rec: Manga, entries: seq<Entry>, i: nat, cfg: Config, now: int)
    requires i < |entries|
    ensures var kv1 := CoverStep(kv, rec, entries[i].name);
      var rest := ScanEntries(kv1, rec, entries[i + 1..], cfg, now);
      ScanEntries(kv, rec, entries[i..], cfg, now)
        == if Collects(kv1, rec.id, cfg, entries[i]) then Prepend([DraftOf(cfg, now, entries[i])], rest) else rest
  {
    assert entries[i..][0] == entries[i] && entries[i..][1..] == entries[i + 1..];
  }

  /** Drafts collected earlier followed by the rest of the entry loop. */
  function Prepend(drafts: seq<Draft>, r: EntriesResult): EntriesResult {
    EntriesResult(r.kv, drafts + r.drafts)
  }

  /** `addChapter` for each numbered chapter in turn. */
  function AddChapters(kv: Store, id: int, cs: seq<Chapter>): (r: Store)
    ensures HasCounter(kv) ==> HasCounter(r) && Counter(r) == Counter(kv)
    decreases |cs|
  {
    if cs == [] then kv else AddChapters(AddChapterIn(kv, cs[0], ById(id), false), id, cs[1..])
  }

  /** The entry loop of a manga just added under the counter's id. */
  function MangaEntries(kv: Store, source: string, m: MangaDir, cfg: Config, now: int): EntriesResult
    requires HasCounter(kv)
  {
    var rec := NewRecord(Counter(kv), m.name, source);
    ScanEntries(AddMangaIn(kv, rec), rec, m.entries, cfg, now)
  }

  /** One manga directory that is not skipped: add, scan the entries, add the numbered chapters. */
  function ScanManga(kv: Store, source: string, m: MangaDir, cfg: Config, now: int): (r: ScanResult)
    requires HasCounter(kv)
    ensures HasCounter(r.kv) && Counter(r.kv) == Counter(kv) + 1
  {
    var id := Counter(kv);
    var er := MangaEntries(kv, source, m, cfg, now);
    ScanResult(AddChapters(er.kv, id, ChapterList(er.drafts)), [NewRecord(id, m.name, source)])
  }

  /** Whether the source loop skips a manga directory. */
  predicate SkipsManga(kv: Store, m: MangaDir, cfg: Config) {
    m.isFile || (!cfg.rescanManga && IsMangaAdded(kv, m.name))
  }

  /** One directory of the manga loop: nothing when it is skipped, else its scan. */
  function MangaStep(kv: Store, source: string, m: MangaDir, cfg: Config, now: int): ScanResult
    requires HasCounter(kv)
  {
    if SkipsManga(kv, m, cfg) then ScanResult(kv, []) else ScanManga(kv, source, m, cfg, now)
  }

  /** The manga loop of one source. */
  function ScanMangas(kv: Store, source: string, mangas: seq<MangaDir>, cfg: Config, now: int): (r: ScanResult)
    requires HasCounter(kv)
    ensures HasCounter(r.kv)
    decreases |mangas|
  {
    if mangas == [] then ScanResult(kv, [])
    else if SkipsManga(kv, mangas[0], cfg) then ScanMangas(kv, source, mangas[1..], cfg, now)
    else
      var r1 := ScanManga(kv, source, mangas[0], cfg, now);
      Then(r1.handed, ScanMangas(r1.kv, source, mangas[1..], cfg, now))
  }

  /** The source loop; a file directly under the root stops the whole scan. */
  function ScanSources(kv: Store, sources: seq<SourceDir>, cfg: Config, now: int): (r: ScanResult)
    requires HasCounter(kv)
    ensures HasCounter(r.kv)
    decreases |sources|
  {
    if sources == [] || sources[0].isFile then ScanResult(kv, [])
    else
      var r1 := ScanMangas(AddSourceIn(kv, sources[0].name), sources[0].name, sources[0].mangas, cfg, now);
      Then(r1.handed, ScanSources(r1.kv, sources[1..], cfg, now))
  }

  // ---------------------------------------------------------------------------
  // The scan, step by step against the store
  // ---------------------------------------------------------------------------

  /**
   * `scanLibrary`: returns, in order, the records it hands to the metadata
   * sync (one per manga it adds).
   */
  method ScanLibrary(db: Db, library: seq<SourceDir>, cfg: Config, now: int) returns (handed: seq<Manga>)
    requires db.Valid()
    modifies db
    ensures db.Valid()
    ensures ScanSources(old(db.kv), library, cfg, now) == ScanResult(db.kv, handed)
  {
    handed := [];
    var i := 0;
    while i < |library|
      invariant 0 <= i <= |library|
      invariant db.Valid()
      invariant ScanSources(old(db.kv), library, cfg, now) == Then(handed, ScanSources(db.kv, library[i..], cfg, now))
    {
      var source := library[i];
      ghost var earlier := handed;
      ScanSourcesStep(db.kv, library, i, cfg, now);
      if source.isFile {
        return;
      }
      db.AddSource(source.name);
      var h := ScanSource(db, source.name, source.mangas, cfg, now);
      handed := handed + h;
      ThenTwice(earlier, h, ScanSources(db.kv, library[i + 1..], cfg, now));
      i := i + 1;
    }
  }

  /** Handed-on records of two steps followed by the rest of the scan. */
  lemma ThenTwice(a: seq<Manga>, b: seq<Manga>, r: ScanResult)
    ensures Then(a, Then(b, r)) == Then(a + b, r)
  {
    assert a + (b + r.handed) == (a + b) + r.handed;
  }

  /** One step of the source loop, from position `i`. */
  lemma ScanSourcesStep(kv: Store, sources: seq<SourceDir>, i: nat, cfg: Config, now: int)
    requires HasCounter(kv) && i < |sources|
    ensures ScanSources(kv, sources[i..], cfg, now)
      == if sources[i].isFile then ScanResult(kv, [])
         else var r1 := ScanMangas(AddSourceIn(kv, sources[i].name), sources[i].name, sources[i].mangas, cfg, now);
           Then(r1.handed, ScanSources(r1.kv, sources[i + 1..], cfg, now))
  {
    assert sources[i..][0] == sources[i] && sources[i..][1..] == sources[i + 1..];
  }

  /** One step of the manga loop, from position `i`. */
  lemma ScanMangasStep(kv: Store, source: string, mangas: seq<MangaDir>, i: nat, cfg: Config, now: int)
    requires HasCounter(kv) && i < |mangas|
    ensures var r1 := MangaStep(kv, source, mangas[i], cfg, now);
      ScanMangas(kv, source, mangas[i..], cfg, now) == Then(r1.handed, ScanMangas(r1.kv, source, mangas[i + 1..], cfg, now))
  {
    assert mangas[i..][0] == mangas[i] && mangas[i..][1..] == mangas[i + 1..];
  }

  /** The manga loop of one source directory. */
  method ScanSource(db: Db, source: string, mangas: seq<MangaDir>, cfg: Config, now: int) returns (handed: seq<Manga>)
    requires db.Valid()
    modifies db
    ensures db.Valid()
    ensures ScanMangas(old(db.kv), source, mangas, cfg, now) == ScanResult(db.kv, handed)
  {
    handed := [];
    var i := 0;
    while i < |mangas|
      invariant 0 <= i <= |mangas|
      invariant db.Valid()
      invariant ScanMangas(old(db.kv), source, mangas, cfg, now) == Then(handed, ScanMangas(db.kv, source, mangas[i..], cfg, now))
    {
      ghost var earlier := handed;
      ScanMangasStep(db.kv, source, mangas, i, cfg, now);
      var h := VisitManga(db, source, mangas[i], cfg, now);
      handed := handed + h;
      ThenTwice(earlier, h, ScanMangas(db.kv, source, mangas[i + 1..], cfg, now));
      i := i + 1;
    }
  }

  /** One pass of the manga loop: the skip test, then the directory's scan. */
  method VisitManga(db: Db, source: string, manga: MangaDir, cfg: Config, now: int) returns (handed: seq<Manga>)
    requires db.Valid()
    modifies db
    ensures db.Valid()
    ensures MangaStep(old(db.kv), source, manga, cfg, now) == ScanResult(db.kv, handed)
  {
    var added := IsMangaAdded(db.kv, manga.name);
    if manga.isFile || (!cfg.rescanManga && added) {
      return [];
    }
    var record := ScanOneManga(db, source, manga, cfg, now);
    handed := [record];
  }

  /** One manga directory: `addManga`, the entry loop, then the sort-and-number step. */
  method ScanOneManga(db: Db, source: string, manga: MangaDir, cfg: Config, now: int) returns (record: Manga)
    requires db.Valid()
    modifies db
    ensures db.Valid()
    ensures ScanManga(old(db.kv), source, manga, cfg, now) == ScanResult(db.kv, [record])
  {
    var mangaDb := NewRecord(0, manga.name, source);
    var mangaId := db.AddManga(mangaDb);
    mangaDb := mangaDb.(id := mangaId);
    var chapters := CollectEntries(db, mangaDb, manga.entries, cfg, now);
    var numbered := ChapterList(chapters);
    AddNumbered(db, mangaId, numbered);
    record := mangaDb;
  }

  /** The entry loop of src/server.ts: cover updates, the `.cbz` filter and the chapter drafts. */
  method CollectEntries(db: Db, mangaDb: Manga, entries: seq<Entry>, cfg: Config, now: int) returns (chapters: seq<Draft>)
    requires db.Valid() && MangaKey(mangaDb.id) in db.kv
    modifies db
    ensures db.Valid() && MangaKey(mangaDb.id) in db.kv
    ensures ScanEntries(old(db.kv), mangaDb, entries, cfg, now) == EntriesResult(db.kv, chapters)
  {
    chapters := [];
    var i := 0;
    assert entries[i..] == entries;
    assert Prepend(chapters, ScanEntries(db.kv, mangaDb, entries, cfg, now)).drafts == ScanEntries(db.kv, mangaDb, entries, cfg, now).drafts;
    while i < |entries|
      invariant 0 <= i <= |entries|
      invariant db.Valid() && MangaKey(mangaDb.id) in db.kv
      invariant ScanEntries(old(db.kv), mangaDb, entries, cfg, now) == Prepend(chapters, ScanEntries(db.kv, mangaDb, entries[i..], cfg, now))
    {
      ghost var before := db.kv;
      ghost var earlier := chapters;
      ScanEntriesStep(before, mangaDb, entries, i, cfg, now);
      var collected := VisitEntry(db, mangaDb, entries[i], cfg, now);
      ghost var rest := ScanEntries(db.kv, mangaDb, entries[i + 1..], cfg, now);
      if collected.Some? {
        chapters := chapters + [collected.value];
        PrependTwice(earlier, [collected.value], rest);
      }
      i := i + 1;
      assert rest == ScanEntries(db.kv, mangaDb, entries[i..], cfg, now);
    }
  }

  /** One pass of the entry loop: the cover update, then the chapter draft if the entry is collected. */
  method VisitEntry(db: Db, mangaDb: Manga, chapter: Entry, cfg: Config, now: int) returns (collected: Option<Draft>)
    requires db.Valid() && MangaKey(mangaDb.id) in db.kv
    modifies db
    ensures db.Valid()
    ensures db.kv == CoverStep(old(db.kv), mangaDb, chapter.name)
    ensures collected == if Collects(db.kv, mangaDb.id, cfg, chapter) then Some(DraftOf(cfg, now, chapter)) else None
  {
    var chapterExt := Extname(chapter.name);
    CoverNameIff(chapter.name, CoverName);
    if IsCoverName(chapter.name) {
      db.UpdateManga(mangaDb.(cover := Some(chapter.name)));
    }
    collected := None;
    if chapterExt == CbzExtension {
      var known := IsChapterAdded(db.kv, ById(mangaDb.id), chapter.name);
      if !(!cfg.rescanChapters && known == Some(true)) {
        var newChap := Draft(ReplaceFirst(chapter.name, chapterExt, ""), 1, chapter.birthtime.GetOr(now));
        if cfg.deepScan {
          newChap := newChap.(pageCount := |chapter.archiveEntries - {"ComicInfo.xml"}|);
        }
        collected := Some(newChap);
      }
    }
  }

  /** The `Promise.all` over the numbered chapters, one `addChapter` after the other. */
  method AddNumbered(db: Db, mangaId: int, numbered: seq<Chapter>)
    requires db.Valid() && MangaKey(mangaId) in db.kv
    modifies db
    ensures db.Valid()
    ensures db.kv == AddChapters(old(db.kv), mangaId, numbered)
  {
    var k := 0;
    while k < |numbered|
      invariant 0 <= k <= |numbered|
      invariant db.Valid() && MangaKey(mangaId) in db.kv
      invariant AddChapters(old(db.kv), mangaId, numbered) == AddChapters(db.kv, mangaId, numbered[k..])
    {
      assert numbered[k..][0] == numbered[k] && numbered[k..][1..] == numbered[k + 1..];
      db.AddChapter(numbered[k], ById(mangaId), false);
      k := k + 1;
    }
  }

  // ---------------------------------------------------------------------------
  // Properties of the scan
  // ---------------------------------------------------------------------------

  /** A file directly under the root ends the scan: nothing after it is visited. */
  lemma {:induction false} FileUnderRootStops(kv: Store, pre: seq<SourceDir>, file: SourceDir, post: seq<SourceDir>, cfg: Config, now: int)
    requires HasCounter(kv) && file.isFile && forall s | s in pre :: !s.isFile
    ensures ScanSources(kv, pre + [file] + post, cfg, now) == ScanSources(kv, pre, cfg, now)
    decreases |pre|
  {
    var all := pre + [file] + post;
    if pre == [] {
      assert all == [file] + post;
    } else {
      assert all[0] == pre[0] && all[1..] == pre[1..] + [file] + post;
      var r1 := ScanMangas(AddSourceIn(kv, pre[0].name), pre[0].name, pre[0].mangas, cfg, now);
      FileUnderRootStops(r1.kv, pre[1..], file, post, cfg, now);
    }
  }

  /**
   * The skip rule of the manga loop: a file, or (with `rescanManga` off) a
   * directory whose name is already indexed, gets no writes at all; any other
   * directory is added again under a fresh id.
   */
  lemma MangaSkipRule(kv: Store, source: string, m: MangaDir, rest: seq<MangaDir>, cfg: Config, now: int)
    requires HasCounter(kv)
    ensures SkipsManga(kv, m, cfg) ==> ScanMangas(kv, source, [m] + rest, cfg, now) == ScanMangas(kv, source, rest, cfg, now)
    ensures !SkipsManga(kv, m, cfg) ==> var r1 := ScanManga(kv, source, m, cfg, now);
      ScanMangas(kv, source, [m] + rest, cfg, now) == Then(r1.handed, ScanMangas(r1.kv, source, rest, cfg, now))
    ensures SkipsManga(kv, m, cfg) <==> m.isFile || (!cfg.rescanManga && PathKey(m.name) in kv)
  {
    assert ([m] + rest)[0] == m && ([m] + rest)[1..] == rest;
  }

  /** An entry is collected exactly when it is a ".cbz" archive not already stored under its full name. */
  lemma CollectsIff(kv: Store, id: int, cfg: Config, e: Entry)
    ensures Collects(kv, id, cfg, e) <==>
      |e.name| > |CbzExtension| && e.name[|e.name| - |CbzExtension|..] == CbzExtension
      && (cfg.rescanChapters || ChapterKey(id, e.name) !in kv)
  {
    ChapterExtension(e.name, CbzExtension);
  }

  /** The last cover entry of a manga directory, if any. */
  function LastCover(entries: seq<Entry>): Option<string> {
    if entries == [] then None
    else match LastCover(entries[1..])
      case Some(c) => Some(c)
      case None => if CoverShape(entries[0].name) then Some(entries[0].name) else None
  }

  /** The entries loop's effect on the store: the record with the last cover, if any. */
  function CoverIn(kv: Store, rec: Manga, entries: seq<Entry>): Store {
    match LastCover(entries)
    case None => kv
    case Some(c) => UpdateMangaIn(kv, rec.(cover := Some(c)))
  }

  /** The entries loop's drafts, read against the store it starts from. */
  function CollectDrafts(kv: Store, id: int, entries: seq<Entry>, cfg: Config, now: int): (ds: seq<Draft>)
    ensures |ds| <= |entries|
  {
    if entries == [] then []
    else
      (if Collects(kv, id, cfg, entries[0]) then [DraftOf(cfg, now, entries[0])] else [])
      + CollectDrafts(kv, id, entries[1..], cfg, now)
  }

  /** Every draft comes from a collected entry. */
  lemma {:induction false} DraftsFromArchives(kv: Store, id: int, entries: seq<Entry>, cfg: Config, now: int)
    ensures forall d | d in CollectDrafts(kv, id, entries, cfg, now) ::
      exists e | e in entries :: Collects(kv, id, cfg, e) && Extname(e.name) == CbzExtension && d == DraftOf(cfg, now, e)
  {
    if entries != [] {
      DraftsFromArchives(kv, id, entries[1..], cfg, now);
      forall d | d in CollectDrafts(kv, id, entries, cfg, now)
        ensures exists e | e in entries :: Collects(kv, id, cfg, e) && Extname(e.name) == CbzExtension && d == DraftOf(cfg, now, e)
      {
        if d !in CollectDrafts(kv, id, entries[1..], cfg, now) {
          assert d == DraftOf(cfg, now, entries[0]) && Collects(kv, id, cfg, entries[0]);
        } else {
          var e :| e in entries[1..] && Collects(kv, id, cfg, e) && d == DraftOf(cfg, now, e);
          assert e in entries;
        }
      }
    }
  }

  /** A record update does not change which chapters count as already added. */
  lemma {:induction false} CollectDraftsIgnoresRecord(kv: Store, m: Manga, id: int, entries: seq<Entry>, cfg: Config, now: int)
    ensures CollectDrafts(UpdateMangaIn(kv, m), id, entries, cfg, now) == CollectDrafts(kv, id, entries, cfg, now)
  {
    if entries != [] {
      CollectDraftsIgnoresRecord(kv, m, id, entries[1..], cfg, now);
      var k := ChapterKey(id, entries[0].name);
      assert k in UpdateMangaIn(kv, m) <==> k in kv;
    }
  }

  /** A cover step before the rest of the loop does not change which of its entries are collected. */
  lemma CoverStepKeepsCollects(kv: Store, rec: Manga, name: string, entries: seq<Entry>, cfg: Config, now: int)
    ensures CollectDrafts(CoverStep(kv, rec, name), rec.id, entries, cfg, now) == CollectDrafts(kv, rec.id, entries, cfg, now)
  {
    if CoverShape(name) {
      CollectDraftsIgnoresRecord(kv, rec.(cover := Some(name)), rec.id, entries, cfg, now);
    }
  }

  /** A cover step followed by the last cover of the rest is the last cover of the whole loop. */
  lemma CoverStepThenCoverIn(kv: Store, rec: Manga, entries: seq<Entry>)
    requires entries != []
    ensures CoverIn(CoverStep(kv, rec, entries[0].name), rec, entries[1..]) == CoverIn(kv, rec, entries)
  {
    var name := entries[0].name;
    var rest := LastCover(entries[1..]);
    assert LastCover(entries) == if rest.Some? then rest else if CoverShape(name) then Some(name) else None;
    if rest.Some? && CoverShape(name) {
      var kv1 := UpdateMangaIn(kv, rec.(cover := Some(name)));
      assert UpdateMangaIn(kv1, rec.(cover := rest)) == UpdateMangaIn(kv, rec.(cover := rest));
    }
  }

  /**
   * The entry loop, as two independent passes: the store ends up with the
   * record carrying the last cover, and the drafts are the collected archives.
   */
  lemma {:induction false} ScanEntriesSplits(kv: Store, rec: Manga, entries: seq<Entry>, cfg: Config, now: int)
    ensures ScanEntries(kv, rec, entries, cfg, now)
      == EntriesResult(CoverIn(kv, rec, entries), CollectDrafts(kv, rec.id, entries, cfg, now))
    decreases |entries|
  {
    if entries != [] {
      var e := entries[0];
      var kv1 := CoverStep(kv, rec, e.name);
      ScanEntriesSplits(kv1, rec, entries[1..], cfg, now);
      CoverStepKeepsCollects(kv, rec, e.name, entries[1..], cfg, now);
      CoverStepKeepsCollects(kv, rec, e.name, [e], cfg, now);
      CoverStepThenCoverIn(kv, rec, entries);
    }
  }

  /** Whether a key belongs to the chapter records or the chapter-number index. */
  predicate ChapterEntryKey(k: Key) {
    |k| == 3 && (k[0] == Tag(Chapters) || k[0] == Tag(ChapterNumber))
  }

  /** Adding chapters only writes chapter keys and never removes a key. */
  lemma {:induction false} AddChaptersFrame(kv: Store, id: int, cs: seq<Chapter>)
    ensures var r := AddChapters(kv, id, cs);
      && kv.Keys <= r.Keys
      && forall k | k in kv && !ChapterEntryKey(k) :: r[k] == kv[k]
    decreases |cs|
  {
    if cs != [] {
      AddChaptersFrame(AddChapterIn(kv, cs[0], ById(id), false), id, cs[1..]);
    }
  }

  /** The keys the chapter loop writes for manga `id`. */
  function ChapterWrites(id: int, cs: seq<Chapter>): set<Key> {
    (set c | c in cs :: ChapterKey(id, c.pathName)) + (set c | c in cs :: ChapterNumberKey(id, c.chapterNumber))
  }

  lemma {:induction false} AddChaptersWrites(kv: Store, id: int, cs: seq<Chapter>)
    ensures var r := AddChapters(kv, id, cs);
      forall k | k in kv && k !in ChapterWrites(id, cs) :: k in r && r[k] == kv[k]
    decreases |cs|
  {
    if cs != [] {
      var kv1 := AddChapterIn(kv, cs[0], ById(id), false);
      AddChaptersWrites(kv1, id, cs[1..]);
      forall k | k in kv && k !in ChapterWrites(id, cs) ensures k in kv1 && kv1[k] == kv[k] && k !in ChapterWrites(id, cs[1..]) {
        assert cs[0] in cs;
        assert k != ChapterKey(id, cs[0].pathName) && k != ChapterNumberKey(id, cs[0].chapterNumber);
        forall c | c in cs[1..] ensures k != ChapterKey(id, c.pathName) && k != ChapterNumberKey(id, c.chapterNumber) {
          assert c in cs;
        }
      }
    }
  }

  predicate DistinctChapters(cs: seq<Chapter>) {
    forall i, j | 0 <= i < j < |cs| :: cs[i].pathName != cs[j].pathName && cs[i].chapterNumber != cs[j].chapterNumber
  }

  /**
   * After the chapter loop over chapters with distinct path names and
   * numbers, each chapter is found under its own number.
   */
  lemma {:induction false} AddChaptersIndexes(kv: Store, id: int, cs: seq<Chapter>)
    requires WellFormed(kv) && MangaKey(id) in kv && DistinctChapters(cs)
    ensures var r := AddChapters(kv, id, cs);
      forall i | 0 <= i < |cs| :: GetChapterWithNumber(r, cs[i].chapterNumber, ById(id)) == Some(cs[i])
    decreases |cs|
  {
    if cs != [] {
      var c := cs[0];
      var kv1 := AddChapterIn(kv, c, ById(id), false);
      AddChapterKeepsWellFormed(kv, c, ById(id), false);
      AddChapterReplaceIrrelevant(kv, c, ById(id));
      assert DistinctChapters(cs[1..]) by {
        forall i, j | 0 <= i < j < |cs[1..]|
          ensures cs[1..][i].pathName != cs[1..][j].pathName && cs[1..][i].chapterNumber != cs[1..][j].chapterNumber
        {
          assert cs[1..][i] == cs[i + 1] && cs[1..][j] == cs[j + 1];
        }
      }
      AddChaptersIndexes(kv1, id, cs[1..]);
      AddChaptersWrites(kv1, id, cs[1..]);
      var r := AddChapters(kv, id, cs);
      assert ChapterKey(id, c.pathName) !in ChapterWrites(id, cs[1..]) by {
        forall d | d in cs[1..] ensures ChapterKey(id, c.pathName) != ChapterKey(id, d.pathName) {
          var j :| 0 <= j < |cs[1..]| && cs[1..][j] == d;
          assert cs[j + 1] == d;
        }
      }
      assert ChapterNumberKey(id, c.chapterNumber) !in ChapterWrites(id, cs[1..]) by {
        forall d | d in cs[1..] ensures ChapterNumberKey(id, c.chapterNumber) != ChapterNumberKey(id, d.chapterNumber) {
          var j :| 0 <= j < |cs[1..]| && cs[1..][j] == d;
          assert cs[j + 1] == d;
        }
      }
      assert r[ChapterNumberKey(id, c.chapterNumber)] == Text(c.pathName);
      assert r[ChapterKey(id, c.pathName)] == ChapterRecord(c);
      forall i | 0 <= i < |cs|
        ensures GetChapterWithNumber(r, cs[i].chapterNumber, ById(id)) == Some(cs[i])
      {
        if i > 0 {
          assert cs[i] == cs[1..][i - 1];
        }
      }
    }
  }

  // ---------------------------------------------------------------------------
  // The scan keeps the store well formed and never removes a key
  // ---------------------------------------------------------------------------

  lemma {:induction false} ScanEntriesKeepsWellFormed(kv: Store, rec: Manga, entries: seq<Entry>, cfg: Config, now: int)
    requires WellFormed(kv) && MangaKey(rec.id) in kv
    ensures var r := ScanEntries(kv, rec, entries, cfg, now); WellFormed(r.kv) && kv.Keys <= r.kv.Keys
    decreases |entries|
  {
    if entries != [] {
      var kv1 := CoverStep(kv, rec, entries[0].name);
      if CoverShape(entries[0].name) {
        UpdateMangaKeepsWellFormed(kv, rec.(cover := Some(entries[0].name)));
      }
      ScanEntriesKeepsWellFormed(kv1, rec, entries[1..], cfg, now);
    }
  }

  lemma {:induction false} AddChaptersKeepsWellFormed(kv: Store, id: int, cs: seq<Chapter>)
    requires WellFormed(kv) && MangaKey(id) in kv
    ensures WellFormed(AddChapters(kv, id, cs))
    decreases |cs|
  {
    if cs != [] {
      AddChapterKeepsWellFormed(kv, cs[0], ById(id), false);
      AddChaptersKeepsWellFormed(AddChapterIn(kv, cs[0], ById(id), false), id, cs[1..]);
    }
  }

  /** The entry loop of a manga just added keeps the store well formed and its record stored. */
  lemma MangaEntriesKeepsWellFormed(kv: Store, source: string, m: MangaDir, cfg: Config, now: int)
    requires WellFormed(kv)
    ensures var er := MangaEntries(kv, source, m, cfg, now);
      WellFormed(er.kv) && MangaKey(Counter(kv)) in er.kv
      && AddMangaIn(kv, NewRecord(Counter(kv), m.name, source)).Keys <= er.kv.Keys
  {
    var id := Counter(kv);
    var rec := NewRecord(id, m.name, source);
    AddMangaKeepsWellFormed(kv, rec);
    AddMangaIndexes(kv, rec);
    ScanEntriesKeepsWellFormed(AddMangaIn(kv, rec), rec, m.entries, cfg, now);
  }

  /** One added manga: the store stays well formed, keeps its keys and now indexes the directory's name. */
  lemma ScanMangaKeepsWellFormed(kv: Store, source: string, m: MangaDir, cfg: Config, now: int)
    requires WellFormed(kv)
    ensures var r := ScanManga(kv, source, m, cfg, now);
      WellFormed(r.kv) && kv.Keys <= r.kv.Keys && PathKey(m.name) in r.kv
  {
    WellFormedHasCounter(kv);
    var id := Counter(kv);
    var rec := NewRecord(id, m.name, source);
    var kv1 := AddMangaIn(kv, rec);
    AddMangaFrame(kv, rec);
    var er := ScanEntries(kv1, rec, m.entries, cfg, now);
    MangaEntriesKeepsWellFormed(kv, source, m, cfg, now);
    AddChaptersKeepsWellFormed(er.kv, id, ChapterList(er.drafts));
    AddChaptersFrame(er.kv, id, ChapterList(er.drafts));
  }

  lemma {:induction false} ScanMangasKeepsWellFormed(kv: Store, source: string, mangas: seq<MangaDir>, cfg: Config, now: int)
    requires WellFormed(kv)
    ensures var r := ScanMangas(kv, source, mangas, cfg, now); WellFormed(r.kv) && kv.Keys <= r.kv.Keys
    decreases |mangas|
  {
    WellFormedHasCounter(kv);
    if mangas != [] {
      if SkipsManga(kv, mangas[0], cfg) {
        ScanMangasKeepsWellFormed(kv, source, mangas[1..], cfg, now);
      } else {
        ScanMangaKeepsWellFormed(kv, source, mangas[0], cfg, now);
        ScanMangasKeepsWellFormed(ScanManga(kv, source, mangas[0], cfg, now).kv, source, mangas[1..], cfg, now);
      }
    }
  }

  /** A whole scan leaves the store well formed and keeps every key it found. */
  lemma {:induction false} ScanSourcesKeepsWellFormed(kv: Store, sources: seq<SourceDir>, cfg: Config, now: int)
    requires WellFormed(kv)
    ensures var r := ScanSources(kv, sources, cfg, now); WellFormed(r.kv) && kv.Keys <= r.kv.Keys
    decreases |sources|
  {
    WellFormedHasCounter(kv);
    if sources != [] && !sources[0].isFile {
      var kv1 := AddSourceIn(kv, sources[0].name);
      AddSourceKeepsWellFormed(kv, sources[0].name);
      ScanMangasKeepsWellFormed(kv1, sources[0].name, sources[0].mangas, cfg, now);
      var r1 := ScanMangas(kv1, sources[0].name, sources[0].mangas, cfg, now);
      ScanSourcesKeepsWellFormed(r1.kv, sources[1..], cfg, now);
    }
  }

  // ---------------------------------------------------------------------------
  // Rescanning without `rescanManga` changes nothing
  // ---------------------------------------------------------------------------

  /** Every manga directory of the list is indexed by name. */
  predicate MangasIndexed(kv: Store, mangas: seq<MangaDir>) {
    forall m | m in mangas && !m.isFile :: PathKey(m.name) in kv
  }

  /** Every source and manga directory the scan visits is already indexed. */
  predicate LibraryIndexed(kv: Store, sources: seq<SourceDir>)
    decreases |sources|
  {
    sources == [] || sources[0].isFile
    || (SourceKey(sources[0].name) in kv && MangasIndexed(kv, sources[0].mangas) && LibraryIndexed(kv, sources[1..]))
  }

  lemma {:induction false} LibraryIndexedMonotone(kv: Store, more: Store, sources: seq<SourceDir>)
    requires kv.Keys <= more.Keys && LibraryIndexed(kv, sources)
    ensures LibraryIndexed(more, sources)
    decreases |sources|
  {
    if sources != [] && !sources[0].isFile {
      LibraryIndexedMonotone(kv, more, sources[1..]);
    }
  }

  lemma {:induction false} ScanMangasIndexes(kv: Store, source: string, mangas: seq<MangaDir>, cfg: Config, now: int)
    requires WellFormed(kv)
    ensures MangasIndexed(ScanMangas(kv, source, mangas, cfg, now).kv, mangas)
    decreases |mangas|
  {
    WellFormedHasCounter(kv);
    if mangas != [] {
      var r := ScanMangas(kv, source, mangas, cfg, now);
      var m := mangas[0];
      var kv1 := if SkipsManga(kv, m, cfg) then kv else ScanManga(kv, source, m, cfg, now).kv;
      if !SkipsManga(kv, m, cfg) {
        ScanMangaKeepsWellFormed(kv, source, m, cfg, now);
      }
      assert !m.isFile ==> PathKey(m.name) in kv1;
      ScanMangasIndexes(kv1, source, mangas[1..], cfg, now);
      ScanMangasKeepsWellFormed(kv1, source, mangas[1..], cfg, now);
      assert r.kv == ScanMangas(kv1, source, mangas[1..], cfg, now).kv;
      forall x | x in mangas && !x.isFile ensures PathKey(x.name) in r.kv {
        if x != m {
          assert x in mangas[1..];
        }
      }
    }
  }

  lemma {:induction false} ScanSourcesIndexes(kv: Store, sources: seq<SourceDir>, cfg: Config, now: int)
    requires WellFormed(kv)
    ensures LibraryIndexed(ScanSources(kv, sources, cfg, now).kv, sources)
    decreases |sources|
  {
    WellFormedHasCounter(kv);
    if sources != [] && !sources[0].isFile {
      var kv1 := AddSourceIn(kv, sources[0].name);
      AddSourceKeepsWellFormed(kv, sources[0].name);
      var r1 := ScanMangas(kv1, sources[0].name, sources[0].mangas, cfg, now);
      ScanMangasKeepsWellFormed(kv1, sources[0].name, sources[0].mangas, cfg, now);
      ScanMangasIndexes(kv1, sources[0].name, sources[0].mangas, cfg, now);
      var r := ScanSources(r1.kv, sources[1..], cfg, now);
      ScanSourcesKeepsWellFormed(r1.kv, sources[1..], cfg, now);
      ScanSourcesIndexes(r1.kv, sources[1..], cfg, now);
    }
  }

  lemma {:induction false} IndexedMangasAreSkipped(kv: Store, source: string, mangas: seq<MangaDir>, cfg: Config, now: int)
    requires HasCounter(kv) && !cfg.rescanManga && MangasIndexed(kv, mangas)
    ensures ScanMangas(kv, source, mangas, cfg, now) == ScanResult(kv, [])
    decreases |mangas|
  {
    if mangas != [] {
      assert mangas[0] in mangas;
      assert MangasIndexed(kv, mangas[1..]) by {
        forall x | x in mangas[1..] ensures x in mangas { }
      }
      IndexedMangasAreSkipped(kv, source, mangas[1..], cfg, now);
    }
  }

  /** Scanning a library that is already indexed, with `rescanManga` off, writes nothing and hands nothing on. */
  lemma {:induction false} IndexedLibraryIsNoOp(kv: Store, sources: seq<SourceDir>, cfg: Config, now: int)
    requires WellFormed(kv) && !cfg.rescanManga && LibraryIndexed(kv, sources)
    ensures ScanSources(kv, sources, cfg, now) == ScanResult(kv, [])
    decreases |sources|
  {
    WellFormedHasCounter(kv);
    if sources != [] && !sources[0].isFile {
      var name := sources[0].name;
      assert EntryOk(kv.Keys, SourceKey(name), kv[SourceKey(name)]);
      assert AddSourceIn(kv, name) == kv;
      IndexedMangasAreSkipped(kv, name, sources[0].mangas, cfg, now);
      IndexedLibraryIsNoOp(kv, sources[1..], cfg, now);
    }
  }

  /** A second scan of the same library, with `rescanManga` off, changes nothing. */
  lemma RescanIsNoOp(kv: Store, sources: seq<SourceDir>, cfg: Config, now: int, later: int)
    requires WellFormed(kv) && !cfg.rescanManga
    ensures var r := ScanSources(kv, sources, cfg, now);
      ScanSources(r.kv, sources, cfg, later) == ScanResult(r.kv, [])
  {
    ScanSourcesKeepsWellFormed(kv, sources, cfg, now);
    ScanSourcesIndexes(kv, sources, cfg, now);
    IndexedLibraryIsNoOp(ScanSources(kv, sources, cfg, now).kv, sources, cfg, later);
  }

  // ---------------------------------------------------------------------------
  // What one added manga leaves in the store
  // ---------------------------------------------------------------------------

  /**
   * An added manga directory is indexed under a fresh id; its stored record
   * carries the last cover entry, while the record handed to the metadata
   * sync is the one without a cover.
   */
  lemma ScanMangaRecord(kv: Store, source: string, m: MangaDir, cfg: Config, now: int)
    requires HasCounter(kv)
    ensures var id, r := Counter(kv), ScanManga(kv, source, m, cfg, now);
      var rec := NewRecord(id, m.name, source);
      && r.handed == [rec] && rec.cover == None
      && IdWithPathName(r.kv, m.name) == Some(id)
      && GetManga(r.kv, ById(id)) == Some(rec.(cover := LastCover(m.entries)))
  {
    var id := Counter(kv);
    var rec := NewRecord(id, m.name, source);
    var kv1 := AddMangaIn(kv, rec);
    AddMangaIndexes(kv, rec);
    assert rec.(id := id) == rec;
    ScanEntriesSplits(kv1, rec, m.entries, cfg, now);
    var er := ScanEntries(kv1, rec, m.entries, cfg, now);
    assert er.kv[MangaKey(id)] == MangaRecord(rec.(cover := LastCover(m.entries)));
    assert er.kv[PathKey(m.name)] == Number(id);
    AddChaptersFrame(er.kv, id, ChapterList(er.drafts));
  }

  /** With no chapter stored for `id`, the already-added test never filters an archive. */
  lemma {:induction false} CollectDraftsWithoutChapters(kv: Store, id: int, entries: seq<Entry>, cfg: Config, now: int)
    requires forall p :: ChapterKey(id, p) !in kv
    ensures CollectDrafts(kv, id, entries, cfg, now) == CollectDrafts(kv, id, entries, cfg.(rescanChapters := true), now)
    decreases |entries|
  {
    if entries != [] {
      CollectDraftsWithoutChapters(kv, id, entries[1..], cfg, now);
      assert ChapterKey(id, entries[0].name) !in kv;
    }
  }

  /**
   * The already-added test of the entry loop runs against the id `addManga`
   * has just handed out, and no chapter is stored under that id before the
   * loop ends: so in a well-formed store every `.cbz` entry is collected,
   * and the scan is the same whether `rescanChapters` is set or not.
   */
  lemma FreshMangaCollectsEveryArchive(kv: Store, source: string, m: MangaDir, cfg: Config, now: int)
    requires WellFormed(kv)
    ensures var id := Counter(kv); var kv1 := AddMangaIn(kv, NewRecord(id, m.name, source));
      forall e | e in m.entries :: IsChapterAdded(kv1, ById(id), e.name) == Some(false)
    ensures MangaEntries(kv, source, m, cfg, now) == MangaEntries(kv, source, m, cfg.(rescanChapters := true), now)
    ensures ScanManga(kv, source, m, cfg, now) == ScanManga(kv, source, m, cfg.(rescanChapters := true), now)
  {
    var id := Counter(kv);
    var rec := NewRecord(id, m.name, source);
    var kv1 := AddMangaIn(kv, rec);
    AddMangaAddsNoChapter(kv, rec);
    ScanEntriesIgnoresRescan(kv1, rec, m.entries, cfg, now);
  }

  /** `addManga` writes no chapter record, so none exists yet under the id it hands out. */
  lemma {:induction false} AddMangaAddsNoChapter(kv: Store, rec: Manga)
    requires WellFormed(kv)
    ensures forall p :: ChapterKey(Counter(kv), p) !in AddMangaIn(kv, rec)
  {
    var id := Counter(kv);
    NextIdIsFresh(kv);
    AddMangaFrame(kv, rec);
    forall p ensures ChapterKey(id, p) !in AddMangaIn(kv, rec) {
      assert ChapterKey(id, p) !in AddMangaWrites(rec, id);
    }
  }

  /** With no chapter stored for the record's id, the entry loop does not depend on `rescanChapters`. */
  lemma {:induction false} ScanEntriesIgnoresRescan(kv: Store, rec: Manga, entries: seq<Entry>, cfg: Config, now: int)
    requires forall p :: ChapterKey(rec.id, p) !in kv
    ensures ScanEntries(kv, rec, entries, cfg, now) == ScanEntries(kv, rec, entries, cfg.(rescanChapters := true), now)
  {
    CollectDraftsWithoutChapters(kv, rec.id, entries, cfg, now);
    ScanEntriesSplits(kv, rec, entries, cfg, now);
    ScanEntriesSplits(kv, rec, entries, cfg.(rescanChapters := true), now);
  }

  // ---------------------------------------------------------------------------
  // The chapters of one added manga
  // ---------------------------------------------------------------------------

  predicate DistinctPaths(ds: seq<Draft>) {
    forall i, j | 0 <= i < j < |ds| :: ds[i].pathName != ds[j].pathName
  }

  lemma {:induction false} InsertDistinct(d: Draft, s: seq<Draft>)
    requires DistinctPaths(s) && forall x | x in s :: x.pathName != d.pathName
    ensures DistinctPaths(Insert(d, s))
    decreases |s|
  {
    if s != [] && SmartSort(d.pathName, s[0].pathName) > 0 {
      assert DistinctPaths(s[1..]) by {
        forall i, j | 0 <= i < j < |s[1..]| ensures s[1..][i].pathName != s[1..][j].pathName {
          assert s[1..][i] == s[i + 1] && s[1..][j] == s[j + 1];
        }
      }
      InsertDistinct(d, s[1..]);
      var r := Insert(d, s[1..]);
      forall x | x in r ensures x.pathName != s[0].pathName {
        InsertMembers(d, s[1..], x);
        if x != d {
          var j :| 0 <= j < |s[1..]| && s[1..][j] == x;
          assert s[j + 1] == x;
        } else {
          assert s[0] in s;
        }
      }
      assert [s[0]] + r == Insert(d, s);
      var t := [s[0]] + r;
      forall i, j | 0 <= i < j < |t| ensures t[i].pathName != t[j].pathName {
        if i == 0 {
          assert t[j] in r;
        } else {
          assert t[i] == r[i - 1] && t[j] == r[j - 1];
        }
      }
    } else if s != [] {
      var t := [d] + s;
      forall i, j | 0 <= i < j < |t| ensures t[i].pathName != t[j].pathName {
        if i == 0 {
          assert t[j] in s;
        } else {
          assert t[i] == s[i - 1] && t[j] == s[j - 1];
        }
      }
    }
  }

  /** Sorting keeps path names distinct. */
  lemma {:induction false} SortDistinct(ds: seq<Draft>)
    requires DistinctPaths(ds)
    ensures DistinctPaths(Sort(ds))
    decreases |ds|
  {
    if ds != [] {
      var tail := ds[1..];
      assert DistinctPaths(tail) by {
        forall i, j | 0 <= i < j < |tail| ensures tail[i].pathName != tail[j].pathName {
          assert tail[i] == ds[i + 1] && tail[j] == ds[j + 1];
        }
      }
      SortDistinct(tail);
      forall x | x in Sort(tail) ensures x.pathName != ds[0].pathName {
        assert x in multiset(Sort(tail));
        assert x in multiset(tail);
        var j :| 0 <= j < |tail| && tail[j] == x;
        assert ds[j + 1] == x;
      }
      InsertDistinct(ds[0], Sort(tail));
    }
  }

  /** Numbering sorted drafts with distinct path names gives distinct names and numbers. */
  lemma ChapterListDistinct(drafts: seq<Draft>)
    requires DistinctPaths(drafts)
    ensures DistinctChapters(ChapterList(drafts))
  {
    var cs := ChapterList(drafts);
    var sorted := Sort(drafts);
    ChapterListNumbers(drafts);
    SortDistinct(drafts);
    forall i, j | 0 <= i < j < |cs| ensures cs[i].pathName != cs[j].pathName && cs[i].chapterNumber != cs[j].chapterNumber {
      assert cs[i].pathName == sorted[i].pathName && cs[j].pathName == sorted[j].pathName;
    }
  }

  /**
   * When the collected archives have distinct path names, chapter number n
   * of the added manga is the n-th chapter of the list, for every n from 1
   * to the number of archives.
   */
  lemma ScanMangaChapters(kv: Store, source: string, m: MangaDir, cfg: Config, now: int)
    requires WellFormed(kv)
    requires DistinctPaths(MangaEntries(kv, source, m, cfg, now).drafts)
    ensures var id, drafts := Counter(kv), MangaEntries(kv, source, m, cfg, now).drafts;
      var cs, r := ChapterList(drafts), ScanManga(kv, source, m, cfg, now);
      forall n | 1 <= n <= |drafts| :: GetChapterWithNumber(r.kv, n, ById(id)) == Some(cs[n - 1])
  {
    WellFormedHasCounter(kv);
    var id := Counter(kv);
    var rec := NewRecord(id, m.name, source);
    var er := MangaEntries(kv, source, m, cfg, now);
    MangaEntriesKeepsWellFormed(kv, source, m, cfg, now);
    var cs := ChapterList(er.drafts);
    ChapterListNumbers(er.drafts);
    ChapterListDistinct(er.drafts);
    AddChaptersIndexes(er.kv, id, cs);
    forall n | 1 <= n <= |er.drafts| ensures GetChapterWithNumber(ScanManga(kv, source, m, cfg, now).kv, n, ById(id)) == Some(cs[n - 1]) {
      assert cs[n - 1].chapterNumber == n;
    }
  }
}
