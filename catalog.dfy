/**
 * The manga catalog kept in a Deno KV store (src/db.ts).
 *
 * The store is a map from tuple keys to values. Every key starts with one of
 * the prefixes of the `P` object; the remaining parts are strings (names,
 * path names) or numbers (manga ids, chapter numbers, page counts). Reads are
 * functions of the map; the writes are methods of `Db`, each proved to leave
 * the map equal to a transition function of the old one.
 */
module Catalog {
  import opened Wrappers
  import opened Models
  import Utils

  // ---------------------------------------------------------------------------
  // Keys and values
  // ---------------------------------------------------------------------------

  /** The key prefixes of `P`. */
  datatype Family =
    | MangaCount | Sources | Categories | MangaCategory | MangaSource
    | Mangas | MangasByPath | Chapters | ChapterNumber

  /** The prefix names, in the order `P` is built from. */
  function FamilyNames(): seq<string> {
    ["mangaCount", "sources", "categories", "mangaCategory", "mangaSource",
     "mangas", "mangasByPath", "chapters", "chapterNumber"]
  }

  /** The position of a prefix in `FamilyNames()`. */
  function FamilyIndex(f: Family): (i: nat)
    ensures i < |FamilyNames()|
  {
    match f
    case MangaCount => 0
    case Sources => 1
    case Categories => 2
    case MangaCategory => 3
    case MangaSource => 4
    case Mangas => 5
    case MangasByPath => 6
    case Chapters => 7
    case ChapterNumber => 8
  }

  /** The string a prefix is spelled with in the store. */
  function FamilyName(f: Family): string {
    FamilyNames()[FamilyIndex(f)]
  }

  /**
   * `P` maps every prefix name to itself, and distinct prefixes are spelled
   * differently, so writing the prefixes as an enumeration loses nothing.
   */
  lemma PrefixSpelling(f: Family, g: Family)
    ensures var p := Utils.CreateKeyValueObject(FamilyNames());
      FamilyName(f) in p && p[FamilyName(f)] == FamilyName(f)
    ensures FamilyName(f) == FamilyName(g) ==> f == g
  {
    assert FamilyName(f) in FamilyNames();
  }

  /** One part of a key tuple. */
  datatype KeyPart = Tag(family: Family) | Str(s: string) | Num(n: int)

  type Key = seq<KeyPart>

  /** What the store holds under a key. */
  datatype Value =
    | Count(count: nat)
    | Number(number: int)
    | Text(text: string)
    | MangaRecord(manga: Manga)
    | ChapterRecord(chapter: Chapter)

  type Store = map<Key, Value>

  /** `number | string`: a manga is named by its id or by its directory name. */
  datatype MangaIdentifier = ById(id: int) | ByPath(pathName: string)

  /** The category every added manga joins. */
  const DefaultCategory: string := "Default"

  function CountKey(): Key { [Tag(MangaCount)] }
  function SourceKey(name: string): Key { [Tag(Sources), Str(name)] }
  function CategoryKey(name: string): Key { [Tag(Categories), Str(name)] }
  function CategoryMemberKey(category: string, id: int): Key { [Tag(MangaCategory), Str(category), Num(id)] }
  function MangaCategoryKey(id: int, category: string): Key { [Tag(MangaCategory), Num(id), Str(category)] }
  function SourceMemberKey(source: string, id: int): Key { [Tag(MangaSource), Str(source), Num(id)] }
  function MangaKey(id: int): Key { [Tag(Mangas), Num(id)] }
  function PathKey(pathName: string): Key { [Tag(MangasByPath), Str(pathName)] }
  function ChapterKey(id: int, pathName: string): Key { [Tag(Chapters), Num(id), Str(pathName)] }
  /** The key `addChapter` checks for absence: its last part is the page count. */
  function ChapterGuardKey(id: int, pageCount: int): Key { [Tag(Chapters), Num(id), Num(pageCount)] }
  function ChapterNumberKey(id: int, chapterNumber: int): Key { [Tag(ChapterNumber), Num(id), Num(chapterNumber)] }

  // ---------------------------------------------------------------------------
  // The invariant every write keeps
  // ---------------------------------------------------------------------------

  /**
   * What may be stored under `k`, given the keys present. Index entries point
   * at records that exist: a path name at a manga record, a chapter number at
   * a chapter record of the same manga; a chapter record belongs to a stored
   * manga.
   */
  predicate EntryOk(keys: set<Key>, k: Key, v: Value) {
    if |k| == 1 then
      k[0] == Tag(MangaCount) && v.Count? && v.count >= 1
    else if |k| == 2 then
      (k[0] == Tag(Sources) && k[1].Str? && v == Text(k[1].s))
      || (k[0] == Tag(Categories) && k[1].Str? && v == Text(k[1].s))
      || (k[0] == Tag(Mangas) && k[1].Num? && v.MangaRecord? && v.manga.id == k[1].n)
      || (k[0] == Tag(MangasByPath) && k[1].Str? && v.Number? && MangaKey(v.number) in keys)
    else if |k| == 3 then
      (k[0] == Tag(MangaCategory) && k[1].Str? && k[2].Num? && v == Number(k[2].n))
      || (k[0] == Tag(MangaCategory) && k[1].Num? && k[2].Str? && v == Text(k[2].s))
      || (k[0] == Tag(MangaSource) && k[1].Str? && k[2].Num? && v == Number(k[2].n))
      || (k[0] == Tag(Chapters) && k[1].Num? && k[2].Str? && v.ChapterRecord? && v.chapter.pathName == k[2].s
          && MangaKey(k[1].n) in keys)
      || (k[0] == Tag(ChapterNumber) && k[1].Num? && k[2].Num? && v.Text? && ChapterKey(k[1].n, v.text) in keys)
    else
      false
  }

  /** Every entry has one of the shapes above (the counter may be missing). */
  predicate EntriesOk(kv: Store) {
    forall k | k in kv :: EntryOk(kv.Keys, k, kv[k])
  }

  /** Every stored manga id is below `next`. */
  predicate IdsBelow(kv: Store, next: int) {
    forall k: Key | k in kv :: |k| == 2 && k[0] == Tag(Mangas) && k[1].Num? ==> k[1].n < next
  }

  /**
   * A store after the module has been loaded: entries well formed, counter
   * present, and every manga id handed out by the counter (ids are taken only
   * from the counter, which only goes up).
   */
  predicate WellFormed(kv: Store) {
    HasCounter(kv) && EntriesOk(kv) && IdsBelow(kv, Counter(kv))
  }

  /**
   * A persisted store these operations could have written: well-formed
   * entries and manga ids below the counter (or no manga at all when the
   * counter is missing).
   */
  predicate Loadable(kv: Store) {
    EntriesOk(kv)
    && IdsBelow(kv, if CountKey() in kv && kv[CountKey()].Count? then kv[CountKey()].count else 1)
  }

  predicate HasCounter(kv: Store) {
    CountKey() in kv && kv[CountKey()].Count?
  }

  /** The next manga id. */
  function Counter(kv: Store): nat
    requires HasCounter(kv)
  {
    kv[CountKey()].count
  }

  lemma WellFormedHasCounter(kv: Store)
    requires WellFormed(kv)
    ensures HasCounter(kv) && Counter(kv) >= 1
  {
    assert EntryOk(kv.Keys, CountKey(), kv[CountKey()]);
  }

  /** Adding keys never invalidates an entry. */
  lemma EntryMonotone(keys: set<Key>, more: set<Key>, k: Key, v: Value)
    requires keys <= more && EntryOk(keys, k, v)
    ensures EntryOk(more, k, v)
  {
  }

  /** One well-formed write keeps the store well formed. */
  lemma {:induction false} SetKeepsEntriesOk(kv: Store, k: Key, v: Value)
    requires EntriesOk(kv) && EntryOk(kv.Keys + {k}, k, v)
    ensures EntriesOk(kv[k := v])
  {
    var kv' := kv[k := v];
    assert kv'.Keys == kv.Keys + {k};
    forall j | j in kv'
      ensures EntryOk(kv'.Keys, j, kv'[j])
    {
      if j != k {
        EntryMonotone(kv.Keys, kv'.Keys, j, kv[j]);
      }
    }
  }

  /** A well-formed write other than the counter, under an id already handed out. */
  lemma {:induction false} SetKeepsWellFormed(kv: Store, k: Key, v: Value)
    requires WellFormed(kv) && EntryOk(kv.Keys + {k}, k, v) && k != CountKey()
    requires |k| == 2 && k[0] == Tag(Mangas) && k[1].Num? ==> k[1].n < Counter(kv)
    ensures WellFormed(kv[k := v])
  {
    SetKeepsEntriesOk(kv, k, v);
    var kv' := kv[k := v];
    assert Counter(kv') == Counter(kv);
    forall id | MangaKey(id) in kv' ensures id < Counter(kv') {
      if MangaKey(id) != k {
        assert MangaKey(id) in kv;
      }
    }
  }

  /** Raising the counter keeps the store well formed. */
  lemma {:induction false} SetCounterKeepsWellFormed(kv: Store, next: nat)
    requires WellFormed(kv) && next >= Counter(kv)
    ensures WellFormed(kv[CountKey() := Count(next)]) && Counter(kv[CountKey() := Count(next)]) == next
  {
    WellFormedHasCounter(kv);
    SetKeepsEntriesOk(kv, CountKey(), Count(next));
    var kv' := kv[CountKey() := Count(next)];
    forall id | MangaKey(id) in kv' ensures id < next {
      assert MangaKey(id) in kv;
    }
  }

  /**
   * The counter's value has never been handed out: no record and no chapter
   * is stored under it.
   */
  lemma NextIdIsFresh(kv: Store)
    requires WellFormed(kv)
    ensures MangaKey(Counter(kv)) !in kv
    ensures forall p :: ChapterKey(Counter(kv), p) !in kv
  {
    forall p ensures ChapterKey(Counter(kv), p) !in kv {
      var k := ChapterKey(Counter(kv), p);
      assert k in kv ==> EntryOk(kv.Keys, k, kv[k]);
    }
  }

  /**
   * No write ever stores a chapter under a numeric last part, so the key
   * `addChapter` checks is never present in a well-formed store.
   */
  lemma GuardAbsent(kv: Store, id: int, pageCount: int)
    requires EntriesOk(kv)
    ensures ChapterGuardKey(id, pageCount) !in kv
  {
  }

  // ---------------------------------------------------------------------------
  // Reads
  // ---------------------------------------------------------------------------

  /** `getIdWithPathName`: the id the path-name index holds, if any. */
  function IdWithPathName(kv: Store, pathName: string): (id: Option<int>)
    ensures id.Some? <==> PathKey(pathName) in kv && kv[PathKey(pathName)].Number?
    ensures id.Some? ==> kv[PathKey(pathName)] == Number(id.value)
  {
    var k := PathKey(pathName);
    if k in kv && kv[k].Number? then Some(kv[k].number) else None
  }

  /** `mangaToId`: an id is taken as given, a path name is looked up. */
  function MangaToId(kv: Store, mi: MangaIdentifier): Option<int> {
    match mi
    case ById(id) => Some(id)
    case ByPath(p) => IdWithPathName(kv, p)
  }

  /** `getManga`: the record under the resolved id, if there is one. */
  function GetManga(kv: Store, mi: MangaIdentifier): (m: Option<Manga>)
    ensures m.Some? <==> (MangaToId(kv, mi).Some?
      && MangaKey(MangaToId(kv, mi).value) in kv && kv[MangaKey(MangaToId(kv, mi).value)].MangaRecord?)
    ensures m.Some? ==> kv[MangaKey(MangaToId(kv, mi).value)] == MangaRecord(m.value)
  {
    match MangaToId(kv, mi)
    case None => None
    case Some(id) =>
      var k := MangaKey(id);
      if k in kv && kv[k].MangaRecord? then Some(kv[k].manga) else None
  }

  /** `getChapterPathName`: the path name stored under a chapter number. */
  function GetChapterPathName(kv: Store, chapterNumber: int, mi: MangaIdentifier): (p: Option<string>)
    ensures p.Some? <==> (MangaToId(kv, mi).Some?
      && ChapterNumberKey(MangaToId(kv, mi).value, chapterNumber) in kv
      && kv[ChapterNumberKey(MangaToId(kv, mi).value, chapterNumber)].Text?)
    ensures p.Some? ==> kv[ChapterNumberKey(MangaToId(kv, mi).value, chapterNumber)] == Text(p.value)
  {
    match MangaToId(kv, mi)
    case None => None
    case Some(id) =>
      var k := ChapterNumberKey(id, chapterNumber);
      if k in kv && kv[k].Text? then Some(kv[k].text) else None
  }

  /** `getChapter`: the chapter record under the resolved id and path name, if there is one. */
  function GetChapter(kv: Store, chapterPath: string, mi: MangaIdentifier): (c: Option<Chapter>)
    ensures c.Some? <==> (MangaToId(kv, mi).Some?
      && ChapterKey(MangaToId(kv, mi).value, chapterPath) in kv
      && kv[ChapterKey(MangaToId(kv, mi).value, chapterPath)].ChapterRecord?)
    ensures c.Some? ==> kv[ChapterKey(MangaToId(kv, mi).value, chapterPath)] == ChapterRecord(c.value)
  {
    match MangaToId(kv, mi)
    case None => None
    case Some(id) =>
      var k := ChapterKey(id, chapterPath);
      if k in kv && kv[k].ChapterRecord? then Some(kv[k].chapter) else None
  }

  /** `getChapterWithNumber`: the number index, then the chapter record. */
  function GetChapterWithNumber(kv: Store, chapterNumber: int, mi: MangaIdentifier): Option<Chapter> {
    match GetChapterPathName(kv, chapterNumber, mi)
    case None => None
    case Some(p) => GetChapter(kv, p, ById(MangaToId(kv, mi).value))
  }

  /** `isMangaAdded`: whether the path-name index has the name. */
  function IsMangaAdded(kv: Store, pathName: string): (added: bool)
    ensures added <==> PathKey(pathName) in kv
  {
    PathKey(pathName) in kv
  }

  /** `isChapterAdded`: `None` (JavaScript `undefined`) for an unknown manga. */
  function IsChapterAdded(kv: Store, mi: MangaIdentifier, chapterPathName: string): (added: Option<bool>)
    ensures added.Some? <==> MangaToId(kv, mi).Some?
    ensures added == Some(true) <==> MangaToId(kv, mi).Some? && ChapterKey(MangaToId(kv, mi).value, chapterPathName) in kv
  {
    match MangaToId(kv, mi)
    case None => None
    case Some(id) => Some(ChapterKey(id, chapterPathName) in kv)
  }

  /** The path names of the chapter records stored for manga `id`. */
  function ChapterPaths(kv: Store, id: int): set<string> {
    set k: Key | k in kv.Keys && |k| == 3 && k[0] == Tag(Chapters) && k[1] == Num(id) && k[2].Str? :: k[2].s
  }

  lemma ChapterPathsMembers(kv: Store, id: int, p: string)
    ensures p in ChapterPaths(kv, id) <==> ChapterKey(id, p) in kv
  {
    if p in ChapterPaths(kv, id) {
      var k: Key :| k in kv.Keys && |k| == 3 && k[0] == Tag(Chapters) && k[1] == Num(id) && k[2].Str? && k[2].s == p;
      assert k == ChapterKey(id, p);
    }
    if ChapterKey(id, p) in kv {
      var k := ChapterKey(id, p);
      assert k[2].s == p;
    }
  }

  /**
   * `cs` lists the chapter records of manga `id`: each once, nothing else.
   */
  predicate ListsChapters(kv: Store, id: int, cs: seq<Chapter>) {
    (forall i, j | 0 <= i < j < |cs| :: cs[i].pathName != cs[j].pathName)
    && (forall i | 0 <= i < |cs| :: ChapterKey(id, cs[i].pathName) in kv
          && kv[ChapterKey(id, cs[i].pathName)] == ChapterRecord(cs[i]))
    && (forall p | p in ChapterPaths(kv, id) :: exists i :: 0 <= i < |cs| && cs[i].pathName == p)
  }

  // ---------------------------------------------------------------------------
  // Writes, as transitions of the store
  // ---------------------------------------------------------------------------

  /** The module's load-time step: start the counter at 1 if it is missing. */
  function InitIn(kv: Store): (r: Store)
    ensures HasCounter(kv) ==> r == kv
    ensures CountKey() !in kv ==> r == kv[CountKey() := Count(1)]
  {
    if CountKey() in kv then kv else kv[CountKey() := Count(1)]
  }

  function AddSourceIn(kv: Store, sourceName: string): Store {
    kv[SourceKey(sourceName) := Text(sourceName)]
  }

  function AddCategoryIn(kv: Store, categoryName: string): Store {
    kv[CategoryKey(categoryName) := Text(categoryName)]
  }

  /** `addMangaToCategory`: nothing for an unknown manga, else the category and both membership keys. */
  function AddMangaToCategoryIn(kv: Store, mi: MangaIdentifier, categoryName: string): Store {
    match MangaToId(kv, mi)
    case None => kv
    case Some(id) =>
      AddCategoryIn(kv, categoryName)
        [CategoryMemberKey(categoryName, id) := Number(id)]
        [MangaCategoryKey(id, categoryName) := Text(categoryName)]
  }

  /** The committed part of `addManga`: path index, record with the counter's id, counter + 1. */
  function InsertMangaIn(kv: Store, m: Manga): (r: Store)
    requires HasCounter(kv)
    ensures HasCounter(r) && Counter(r) == Counter(kv) + 1
  {
    var id := Counter(kv);
    kv[PathKey(m.pathName) := Number(id)][MangaKey(id) := MangaRecord(m.(id := id))][CountKey() := Count(id + 1)]
  }

  /** `addManga`: the insert, then the source, the "Default" category and the source index. */
  function AddMangaIn(kv: Store, m: Manga): (r: Store)
    requires HasCounter(kv)
    ensures HasCounter(r) && Counter(r) == Counter(kv) + 1
  {
    var id := Counter(kv);
    var kv1 := InsertMangaIn(kv, m);
    var kv2 := AddSourceIn(kv1, m.source);
    var kv3 := AddMangaToCategoryIn(kv2, ById(id), DefaultCategory);
    kv3[SourceMemberKey(m.source, id) := Number(id)]
  }

  function UpdateMangaIn(kv: Store, m: Manga): Store {
    kv[MangaKey(m.id) := MangaRecord(m)]
  }

  /**
   * `addChapter`: nothing for an unknown manga; with `replace` the guard key
   * is deleted first; the record and the number index are written only while
   * the guard key is absent.
   */
  function AddChapterIn(kv: Store, c: Chapter, mi: MangaIdentifier, replace: bool): Store {
    match MangaToId(kv, mi)
    case None => kv
    case Some(id) =>
      var guard := ChapterGuardKey(id, c.pageCount);
      var kv1 := if replace then kv - {guard} else kv;
      if guard in kv1 then kv1
      else kv1[ChapterKey(id, c.pathName) := ChapterRecord(c)][ChapterNumberKey(id, c.chapterNumber) := Text(c.pathName)]
  }

  function UpdateChapterIn(kv: Store, c: Chapter, mi: MangaIdentifier): Store {
    match MangaToId(kv, mi)
    case None => kv
    case Some(id) => kv[ChapterKey(id, c.pathName) := ChapterRecord(c)]
  }

  // ---------------------------------------------------------------------------
  // Properties of the transitions
  // ---------------------------------------------------------------------------

  /** Loading the module twice is the same as loading it once. */
  lemma InitIdempotent(kv: Store)
    requires Loadable(kv)
    ensures WellFormed(InitIn(kv)) && Counter(InitIn(kv)) >= 1
    ensures InitIn(InitIn(kv)) == InitIn(kv)
    ensures forall k | k in kv :: k in InitIn(kv) && InitIn(kv)[k] == kv[k]
  {
    if CountKey() !in kv {
      SetKeepsEntriesOk(kv, CountKey(), Count(1));
      var kv' := InitIn(kv);
      forall id | MangaKey(id) in kv' ensures id < 1 {
        assert MangaKey(id) in kv;
      }
    } else {
      assert EntryOk(kv.Keys, CountKey(), kv[CountKey()]);
    }
  }

  lemma AddSourceKeepsWellFormed(kv: Store, sourceName: string)
    requires WellFormed(kv)
    ensures WellFormed(AddSourceIn(kv, sourceName))
  {
    SetKeepsWellFormed(kv, SourceKey(sourceName), Text(sourceName));
  }

  lemma AddCategoryKeepsWellFormed(kv: Store, categoryName: string)
    requires WellFormed(kv)
    ensures WellFormed(AddCategoryIn(kv, categoryName))
  {
    SetKeepsWellFormed(kv, CategoryKey(categoryName), Text(categoryName));
  }

  lemma {:induction false} AddMangaToCategoryKeepsWellFormed(kv: Store, mi: MangaIdentifier, categoryName: string)
    requires WellFormed(kv)
    ensures WellFormed(AddMangaToCategoryIn(kv, mi, categoryName))
  {
    match MangaToId(kv, mi)
    case None =>
    case Some(id) =>
      var kv1 := AddCategoryIn(kv, categoryName);
      AddCategoryKeepsWellFormed(kv, categoryName);
      SetKeepsWellFormed(kv1, CategoryMemberKey(categoryName, id), Number(id));
      var kv2 := kv1[CategoryMemberKey(categoryName, id) := Number(id)];
      SetKeepsWellFormed(kv2, MangaCategoryKey(id, categoryName), Text(categoryName));
  }

  lemma {:induction false} InsertMangaKeepsWellFormed(kv: Store, m: Manga)
    requires WellFormed(kv)
    ensures WellFormed(InsertMangaIn(kv, m))
  {
    WellFormedHasCounter(kv);
    var id := Counter(kv);
    var rec := MangaRecord(m.(id := id));
    // The commit is atomic: raise the counter, then write the record, then
    // the index entry that points at it.
    var kv1 := kv[CountKey() := Count(id + 1)];
    SetCounterKeepsWellFormed(kv, id + 1);
    var kv2 := kv1[MangaKey(id) := rec];
    SetKeepsWellFormed(kv1, MangaKey(id), rec);
    SetKeepsWellFormed(kv2, PathKey(m.pathName), Number(id));
    assert kv2[PathKey(m.pathName) := Number(id)] == InsertMangaIn(kv, m);
  }

  lemma {:induction false} AddMangaKeepsWellFormed(kv: Store, m: Manga)
    requires WellFormed(kv)
    ensures WellFormed(AddMangaIn(kv, m))
  {
    WellFormedHasCounter(kv);
    var id := Counter(kv);
    var kv1 := InsertMangaIn(kv, m);
    InsertMangaKeepsWellFormed(kv, m);
    AddSourceKeepsWellFormed(kv1, m.source);
    var kv2 := AddSourceIn(kv1, m.source);
    AddMangaToCategoryKeepsWellFormed(kv2, ById(id), DefaultCategory);
    var kv3 := AddMangaToCategoryIn(kv2, ById(id), DefaultCategory);
    SetKeepsWellFormed(kv3, SourceMemberKey(m.source, id), Number(id));
  }

  lemma UpdateMangaKeepsWellFormed(kv: Store, m: Manga)
    requires WellFormed(kv) && MangaKey(m.id) in kv
    ensures WellFormed(UpdateMangaIn(kv, m))
  {
    SetKeepsWellFormed(kv, MangaKey(m.id), MangaRecord(m));
  }

  /** A resolved identifier names a stored manga: a path name through the index, an id by requirement. */
  lemma ResolvesToStored(kv: Store, mi: MangaIdentifier)
    requires WellFormed(kv) && (mi.ById? ==> MangaKey(mi.id) in kv) && MangaToId(kv, mi).Some?
    ensures MangaKey(MangaToId(kv, mi).value) in kv
  {
    if mi.ByPath? {
      assert EntryOk(kv.Keys, PathKey(mi.pathName), kv[PathKey(mi.pathName)]);
    }
  }

  lemma {:induction false} AddChapterKeepsWellFormed(kv: Store, c: Chapter, mi: MangaIdentifier, replace: bool)
    requires WellFormed(kv) && (mi.ById? ==> MangaKey(mi.id) in kv)
    ensures WellFormed(AddChapterIn(kv, c, mi, replace))
  {
    match MangaToId(kv, mi)
    case None =>
    case Some(id) =>
      ResolvesToStored(kv, mi);
      var guard := ChapterGuardKey(id, c.pageCount);
      GuardAbsent(kv, id, c.pageCount);
      assert kv - {guard} == kv;
      var rec := ChapterRecord(c);
      SetKeepsWellFormed(kv, ChapterKey(id, c.pathName), rec);
      var kv1 := kv[ChapterKey(id, c.pathName) := rec];
      SetKeepsWellFormed(kv1, ChapterNumberKey(id, c.chapterNumber), Text(c.pathName));
  }

  lemma {:induction false} UpdateChapterKeepsWellFormed(kv: Store, c: Chapter, mi: MangaIdentifier)
    requires WellFormed(kv) && (mi.ById? ==> MangaKey(mi.id) in kv)
    ensures WellFormed(UpdateChapterIn(kv, c, mi))
  {
    match MangaToId(kv, mi)
    case None =>
    case Some(id) =>
      ResolvesToStored(kv, mi);
      SetKeepsWellFormed(kv, ChapterKey(id, c.pathName), ChapterRecord(c));
  }

  /** The keys `addManga` writes when it hands out `id`. */
  function AddMangaWrites(m: Manga, id: int): set<Key> {
    {PathKey(m.pathName), MangaKey(id), CountKey(), SourceKey(m.source), CategoryKey(DefaultCategory),
     CategoryMemberKey(DefaultCategory, id), MangaCategoryKey(id, DefaultCategory), SourceMemberKey(m.source, id)}
  }

  /**
   * `addManga` hands out the counter as the id and indexes the new record
   * under its path name, its id, its source and the "Default" category.
   */
  lemma {:induction false} AddMangaIndexes(kv: Store, m: Manga)
    requires HasCounter(kv)
    ensures var id, kv' := Counter(kv), AddMangaIn(kv, m);
      && IdWithPathName(kv', m.pathName) == Some(id)
      && GetManga(kv', ByPath(m.pathName)) == Some(m.(id := id))
      && GetManga(kv', ById(id)) == Some(m.(id := id))
      && IsMangaAdded(kv', m.pathName)
      && kv'[SourceKey(m.source)] == Text(m.source)
      && kv'[CategoryKey(DefaultCategory)] == Text(DefaultCategory)
      && kv'[CategoryMemberKey(DefaultCategory, id)] == Number(id)
      && kv'[MangaCategoryKey(id, DefaultCategory)] == Text(DefaultCategory)
      && kv'[SourceMemberKey(m.source, id)] == Number(id)
  {
    var id := Counter(kv);
    var kv1 := InsertMangaIn(kv, m);
    assert kv1[PathKey(m.pathName)] == Number(id);
    assert kv1[MangaKey(id)] == MangaRecord(m.(id := id));
    var kv2 := AddSourceIn(kv1, m.source);
    assert MangaToId(kv2, ById(id)) == Some(id);
  }

  /** `addManga` writes its eight keys and leaves every other entry as it was. */
  lemma {:induction false} AddMangaFrame(kv: Store, m: Manga)
    requires HasCounter(kv)
    ensures var id, kv' := Counter(kv), AddMangaIn(kv, m);
      && kv'.Keys == kv.Keys + AddMangaWrites(m, id)
      && forall k | k in kv && k !in AddMangaWrites(m, id) :: kv'[k] == kv[k]
  {
    var id := Counter(kv);
    var kv2 := AddSourceIn(InsertMangaIn(kv, m), m.source);
    assert MangaToId(kv2, ById(id)) == Some(id);
  }

  /**
   * Adding a path name that is already indexed (a rescan) gives it a fresh id;
   * the record under the old id stays in the store, no longer indexed by path.
   */
  lemma {:induction false} ReAddKeepsOldRecord(kv: Store, m: Manga, oldId: int)
    requires WellFormed(kv) && IdWithPathName(kv, m.pathName) == Some(oldId)
    ensures var kv' := AddMangaIn(kv, m);
      && oldId != Counter(kv)
      && IdWithPathName(kv', m.pathName) == Some(Counter(kv))
      && GetManga(kv', ById(oldId)) == GetManga(kv, ById(oldId))
      && GetManga(kv, ById(oldId)).Some?
  {
    AddMangaIndexes(kv, m);
    AddMangaKeepsRecords(kv, m);
    assert EntryOk(kv.Keys, PathKey(m.pathName), kv[PathKey(m.pathName)]);
    assert EntryOk(kv.Keys, MangaKey(oldId), kv[MangaKey(oldId)]);
  }

  /**
   * `addManga` stores its record under an id no record has, so every record
   * already stored keeps its value.
   */
  lemma {:induction false} AddMangaKeepsRecords(kv: Store, m: Manga)
    requires WellFormed(kv)
    ensures MangaKey(Counter(kv)) !in kv
    ensures forall id | MangaKey(id) in kv :: MangaKey(id) in AddMangaIn(kv, m) && AddMangaIn(kv, m)[MangaKey(id)] == kv[MangaKey(id)]
  {
    NextIdIsFresh(kv);
    forall id | MangaKey(id) in kv
      ensures MangaKey(id) in AddMangaIn(kv, m) && AddMangaIn(kv, m)[MangaKey(id)] == kv[MangaKey(id)]
    {
      assert id < Counter(kv);
      AddMangaKeepsOther(kv, m, MangaKey(id));
    }
  }

  /** Two adds in a row get consecutive ids. */
  lemma {:induction false} ConsecutiveIds(kv: Store, a: Manga, b: Manga)
    requires HasCounter(kv)
    ensures var c := Counter(kv); var kv2 := AddMangaIn(AddMangaIn(kv, a), b);
      && GetManga(kv2, ById(c)) == Some(a.(id := c))
      && GetManga(kv2, ById(c + 1)) == Some(b.(id := c + 1))
      && Counter(kv2) == c + 2
  {
    var c := Counter(kv);
    var kv1 := AddMangaIn(kv, a);
    AddMangaIndexes(kv, a);
    AddMangaIndexes(kv1, b);
    assert MangaKey(c) in kv1 && kv1[MangaKey(c)] == MangaRecord(a.(id := c));
    AddMangaKeepsOther(kv1, b, MangaKey(c));
  }

  /** An entry `addManga` does not write keeps its value. */
  lemma AddMangaKeepsOther(kv: Store, m: Manga, k: Key)
    requires HasCounter(kv) && k in kv && k !in AddMangaWrites(m, Counter(kv))
    ensures k in AddMangaIn(kv, m) && AddMangaIn(kv, m)[k] == kv[k]
  {
    var id := Counter(kv);
    var kv2 := AddSourceIn(InsertMangaIn(kv, m), m.source);
    assert MangaToId(kv2, ById(id)) == Some(id);
  }

  /** Adding a source or a category is idempotent. */
  lemma AddSourceAndCategoryIdempotent(kv: Store, name: string)
    ensures AddSourceIn(AddSourceIn(kv, name), name) == AddSourceIn(kv, name)
    ensures AddCategoryIn(AddCategoryIn(kv, name), name) == AddCategoryIn(kv, name)
  {
  }

  /** `addMangaToCategory` links a known manga to the category both ways. */
  lemma AddMangaToCategoryLinks(kv: Store, mi: MangaIdentifier, categoryName: string)
    requires MangaToId(kv, mi).Some?
    ensures var id, kv' := MangaToId(kv, mi).value, AddMangaToCategoryIn(kv, mi, categoryName);
      && kv'[CategoryKey(categoryName)] == Text(categoryName)
      && kv'[CategoryMemberKey(categoryName, id)] == Number(id)
      && kv'[MangaCategoryKey(id, categoryName)] == Text(categoryName)
      && kv'.Keys == kv.Keys + {CategoryKey(categoryName), CategoryMemberKey(categoryName, id), MangaCategoryKey(id, categoryName)}
  {
  }

  /** A path name that is not indexed makes every by-manga operation a no-op or a miss. */
  lemma UnknownMangaIsNoOp(kv: Store, mi: MangaIdentifier, categoryName: string, c: Chapter, replace: bool, n: int, p: string)
    requires WellFormed(kv) && MangaToId(kv, mi).None?
    ensures mi.ByPath? ==> !IsMangaAdded(kv, mi.pathName)
    ensures AddMangaToCategoryIn(kv, mi, categoryName) == kv
    ensures AddChapterIn(kv, c, mi, replace) == kv
    ensures UpdateChapterIn(kv, c, mi) == kv
    ensures GetManga(kv, mi).None? && GetChapter(kv, p, mi).None? && GetChapterWithNumber(kv, n, mi).None?
    ensures IsChapterAdded(kv, mi, p).None?
  {
    if mi.ByPath? {
      var k := PathKey(mi.pathName);
      assert k in kv ==> EntryOk(kv.Keys, k, kv[k]);
    }
  }

  /**
   * In a well-formed store the key `addChapter` checks is never present, so
   * the `replace` option changes nothing and the chapter is always written.
   */
  lemma {:induction false} AddChapterReplaceIrrelevant(kv: Store, c: Chapter, mi: MangaIdentifier)
    requires EntriesOk(kv)
    ensures AddChapterIn(kv, c, mi, true) == AddChapterIn(kv, c, mi, false)
    ensures MangaToId(kv, mi).Some? ==> var id := MangaToId(kv, mi).value;
      AddChapterIn(kv, c, mi, false)
        == kv[ChapterKey(id, c.pathName) := ChapterRecord(c)][ChapterNumberKey(id, c.chapterNumber) := Text(c.pathName)]
  {
    match MangaToId(kv, mi)
    case None =>
    case Some(id) =>
      GuardAbsent(kv, id, c.pageCount);
      assert kv - {ChapterGuardKey(id, c.pageCount)} == kv;
  }

  /** After `addChapter`, the chapter is found by its path name and by its number. */
  lemma {:induction false} AddChapterThenGet(kv: Store, c: Chapter, mi: MangaIdentifier, replace: bool)
    requires EntriesOk(kv) && MangaToId(kv, mi).Some?
    ensures var kv' := AddChapterIn(kv, c, mi, replace);
      && MangaToId(kv', mi) == MangaToId(kv, mi)
      && GetChapter(kv', c.pathName, mi) == Some(c)
      && GetChapterWithNumber(kv', c.chapterNumber, mi) == Some(c)
      && IsChapterAdded(kv', mi, c.pathName) == Some(true)
  {
    AddChapterReplaceIrrelevant(kv, c, mi);
    var id := MangaToId(kv, mi).value;
    var kv' := AddChapterIn(kv, c, mi, replace);
    if mi.ByPath? {
      assert kv'[PathKey(mi.pathName)] == kv[PathKey(mi.pathName)];
    }
    assert GetChapterPathName(kv', c.chapterNumber, mi) == Some(c.pathName);
  }

  /** `updateManga` replaces the record under the manga's own id and nothing else. */
  lemma UpdateMangaThenGet(kv: Store, m: Manga)
    ensures var kv' := UpdateMangaIn(kv, m);
      && GetManga(kv', ById(m.id)) == Some(m)
      && kv'.Keys == kv.Keys + {MangaKey(m.id)}
      && forall k | k in kv && k != MangaKey(m.id) :: kv'[k] == kv[k]
  {
  }

  /**
   * `updateChapter` replaces the record under the chapter's path name and
   * nothing else; in particular the number index is untouched.
   */
  lemma {:induction false} UpdateChapterThenGet(kv: Store, c: Chapter, mi: MangaIdentifier)
    requires MangaToId(kv, mi).Some?
    ensures var id, kv' := MangaToId(kv, mi).value, UpdateChapterIn(kv, c, mi);
      && MangaToId(kv', mi) == MangaToId(kv, mi)
      && GetChapter(kv', c.pathName, mi) == Some(c)
      && kv'.Keys == kv.Keys + {ChapterKey(id, c.pathName)}
      && forall k | k in kv && k != ChapterKey(id, c.pathName) :: kv'[k] == kv[k]
  {
    var kv' := UpdateChapterIn(kv, c, mi);
    if mi.ByPath? {
      assert kv'[PathKey(mi.pathName)] == kv[PathKey(mi.pathName)];
    }
  }

  /**
   * The state of `iterList` over the chapters of manga `id`: the chapters
   * listed so far are stored records with distinct path names, and they are
   * exactly the path names of `all` no longer in `remaining`.
   */
  predicate ListedSoFar(kv: Store, id: int, all: set<string>, remaining: set<string>, cs: seq<Chapter>) {
    && remaining <= all
    && (forall i | 0 <= i < |cs| ::
          cs[i].pathName in all - remaining
          && ChapterKey(id, cs[i].pathName) in kv
          && kv[ChapterKey(id, cs[i].pathName)] == ChapterRecord(cs[i]))
    && (forall i, j | 0 <= i < j < |cs| :: cs[i].pathName != cs[j].pathName)
    && (forall p | p in all - remaining :: exists i :: 0 <= i < |cs| && cs[i].pathName == p)
  }

  lemma ListedStep(kv: Store, id: int, all: set<string>, remaining: set<string>, cs: seq<Chapter>, p: string, c: Chapter)
    requires ListedSoFar(kv, id, all, remaining, cs)
    requires p in remaining && c.pathName == p && ChapterKey(id, p) in kv && kv[ChapterKey(id, p)] == ChapterRecord(c)
    ensures ListedSoFar(kv, id, all, remaining - {p}, cs + [c])
  {
    var next := cs + [c];
    forall q | q in all - (remaining - {p})
      ensures exists i :: 0 <= i < |next| && next[i].pathName == q
    {
      if q == p {
        assert next[|cs|].pathName == q;
      } else {
        assert q in all - remaining;
        var i :| 0 <= i < |cs| && cs[i].pathName == q;
        assert next[i] == cs[i];
      }
    }
  }

  lemma ListedAll(kv: Store, id: int, all: set<string>, cs: seq<Chapter>)
    requires all == ChapterPaths(kv, id) && ListedSoFar(kv, id, all, {}, cs)
    ensures ListsChapters(kv, id, cs)
  {
    assert all - {} == all;
  }

  // ---------------------------------------------------------------------------
  // The open store
  // ---------------------------------------------------------------------------

  /** The store `db` opened by the module; every write goes through a method here. */
  class Db {
    var kv: Store

    predicate Valid()
      reads this
    {
      WellFormed(kv)
    }

    /** `Deno.openKv` on a store these operations wrote, then the load-time counter step. */
    constructor Open(persisted: Store)
      requires Loadable(persisted)
      ensures Valid() && kv == InitIn(persisted)
    {
      var store := persisted;
      if CountKey() !in store {
        store := store[CountKey() := Count(1)];
      }
      InitIdempotent(persisted);
      kv := store;
    }

    /** `addSource`. */
    method AddSource(sourceName: string)
      requires Valid()
      modifies this
      ensures Valid() && kv == AddSourceIn(old(kv), sourceName)
    {
      AddSourceKeepsWellFormed(kv, sourceName);
      kv := kv[SourceKey(sourceName) := Text(sourceName)];
    }

    /** `addCategory`. */
    method AddCategory(categoryName: string)
      requires Valid()
      modifies this
      ensures Valid() && kv == AddCategoryIn(old(kv), categoryName)
    {
      AddCategoryKeepsWellFormed(kv, categoryName);
      kv := kv[CategoryKey(categoryName) := Text(categoryName)];
    }

    /** `addMangaToCategory`. */
    method AddMangaToCategory(mi: MangaIdentifier, categoryName: string)
      requires Valid()
      modifies this
      ensures Valid() && kv == AddMangaToCategoryIn(old(kv), mi, categoryName)
    {
      var mangaId := MangaToId(kv, mi);
      if mangaId.None? {
        return;
      }
      AddMangaToCategoryKeepsWellFormed(kv, mi, categoryName);
      AddCategory(categoryName);
      kv := kv[CategoryMemberKey(categoryName, mangaId.value) := Number(mangaId.value)]
              [MangaCategoryKey(mangaId.value, categoryName) := Text(categoryName)];
    }

    /** `addManga`, for one attempt whose commit succeeds. */
    method AddManga(m: Manga) returns (id: int)
      requires Valid()
      modifies this
      ensures Valid() && id == old(Counter(kv)) && kv == AddMangaIn(old(kv), m)
    {
      var mangaCount := kv[CountKey()].count;
      id := mangaCount;
      var record := m.(id := id);
      ghost var start := kv;
      InsertMangaKeepsWellFormed(kv, m);
      kv := kv[PathKey(m.pathName) := Number(id)][MangaKey(id) := MangaRecord(record)][CountKey() := Count(mangaCount + 1)];
      assert kv == InsertMangaIn(start, m);
      AddSource(m.source);
      AddMangaToCategory(ById(id), DefaultCategory);
      AddMangaKeepsWellFormed(start, m);
      kv := kv[SourceMemberKey(m.source, id) := Number(id)];
    }

    /** `updateManga`. */
    method UpdateManga(m: Manga)
      requires Valid() && MangaKey(m.id) in kv
      modifies this
      ensures Valid() && kv == UpdateMangaIn(old(kv), m)
    {
      UpdateMangaKeepsWellFormed(kv, m);
      kv := kv[MangaKey(m.id) := MangaRecord(m)];
    }

    /** `addChapter`. */
    method AddChapter(c: Chapter, mi: MangaIdentifier, replace: bool)
      requires Valid() && (mi.ById? ==> MangaKey(mi.id) in kv)
      modifies this
      ensures Valid() && kv == AddChapterIn(old(kv), c, mi, replace)
    {
      var mangaKey := MangaToId(kv, mi);
      if mangaKey.None? {
        return;
      }
      AddChapterKeepsWellFormed(kv, c, mi, replace);
      var chapterKey := ChapterGuardKey(mangaKey.value, c.pageCount);
      if replace {
        kv := kv - {chapterKey};
      }
      if chapterKey !in kv {
        kv := kv[ChapterKey(mangaKey.value, c.pathName) := ChapterRecord(c)]
                [ChapterNumberKey(mangaKey.value, c.chapterNumber) := Text(c.pathName)];
      }
    }

    /** `updateChapter`. */
    method UpdateChapter(c: Chapter, mi: MangaIdentifier)
      requires Valid() && (mi.ById? ==> MangaKey(mi.id) in kv)
      modifies this
      ensures Valid() && kv == UpdateChapterIn(old(kv), c, mi)
    {
      var mangaIdKey := MangaToId(kv, mi);
      if mangaIdKey.None? {
        return;
      }
      UpdateChapterKeepsWellFormed(kv, c, mi);
      kv := kv[ChapterKey(mangaIdKey.value, c.pathName) := ChapterRecord(c)];
    }

    /** `getMangaChapters`: no chapters for an unknown manga, else every stored chapter once. */
    method GetMangaChapters(mi: MangaIdentifier) returns (chapters: seq<Chapter>)
      requires Valid()
      ensures MangaToId(kv, mi).None? ==> chapters == []
      ensures MangaToId(kv, mi).Some? ==> ListsChapters(kv, MangaToId(kv, mi).value, chapters)
    {
      var id := MangaToId(kv, mi);
      if id.None? {
        return [];
      }
      chapters := IterChapters(id.value);
    }

    /** `iterList` over the prefix (chapters, id): collect the value of each matching entry. */
    method IterChapters(id: int) returns (chapters: seq<Chapter>)
      requires Valid()
      ensures ListsChapters(kv, id, chapters)
    {
      var all := ChapterPaths(kv, id);
      var remaining := all;
      chapters := [];
      while remaining != {}
        invariant ListedSoFar(kv, id, all, remaining, chapters)
        decreases |remaining|
      {
        var p :| p in remaining;
        ChapterPathsMembers(kv, id, p);
        var item := kv[ChapterKey(id, p)];
        assert EntryOk(kv.Keys, ChapterKey(id, p), item);
        ListedStep(kv, id, all, remaining, chapters, p, item.chapter);
        chapters := chapters + [item.chapter];
        remaining := remaining - {p};
      }
      ListedAll(kv, id, all, chapters);
    }
  }
}
