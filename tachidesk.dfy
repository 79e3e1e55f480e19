/**
 * Metadata reconciliation with a Tachidesk server (src/tachidesk.ts).
 *
 * The GraphQL response is an input value (the list of matching manga nodes),
 * `slugify` is an uninterpreted function parameter, and the provider origin
 * and the manga directory's entry names are plain inputs. The cover download
 * itself is I/O; the model returns the URL it would fetch.
 */
module Tachidesk {
  import opened Wrappers
  import opened Strings
  import opened Models
  import opened Catalog
  import Utils
  import Scanner

  /** A chapter node of the response. */
  datatype RemoteChapter = RemoteChapter(name: string, uploadDate: int, scanlator: Option<string>)

  /** A manga node of the response. */
  datatype RemoteManga = RemoteManga(
    title: Option<string>,
    artist: Option<string>,
    author: Option<string>,
    description: Option<string>,
    genre: Option<seq<string>>,
    status: Status,
    thumbnailUrl: string,
    chapters: seq<RemoteChapter>)

  /** How a sync ends: no node, all chapters matched (and the cover URL to fetch, if any), or a chapter with no match. */
  datatype SyncOutcome =
    | NotFound
    | Synced(merged: Manga, coverUrl: Option<string>)
    | Failed(merged: Manga, unmatched: string)

  /** The store after a sync and how it ended. */
  datatype SyncRun = SyncRun(kv: Store, outcome: SyncOutcome)

  /** The chapter loop's end: every remote chapter matched, or the name of the first that did not. */
  datatype ChapterSync = Done(kv: Store) | Unmatched(kv: Store, name: string)

  const CoverWord: string := "cover"

  // ---------------------------------------------------------------------------
  // The pure parts: the merged record, the slugs, the updated chapter
  // ---------------------------------------------------------------------------

  /**
   * `mangaReturn`: the local record with the six metadata fields taken from
   * the node; id, path name, source and cover are the local ones.
   */
  function MergeManga(manga: Manga, remote: RemoteManga): (r: Manga)
    ensures r.id == manga.id && r.pathName == manga.pathName && r.source == manga.source && r.cover == manga.cover
    ensures r.title == remote.title && r.artist == remote.artist && r.author == remote.author
    ensures r.description == remote.description && r.genres == remote.genre && r.status == remote.status
  {
    manga.(title := remote.title, artist := remote.artist, author := remote.author,
           description := remote.description, genres := remote.genre, status := remote.status)
  }

  /** Merging depends on the local record only through the fields it keeps, so a second merge overrides the first. */
  lemma MergeLastWins(manga: Manga, a: RemoteManga, b: RemoteManga)
    ensures MergeManga(MergeManga(manga, a), b) == MergeManga(manga, b)
  {
  }

  /** `chaptersSlug`: the slug of each local chapter's path name, in order. */
  function Slugs(local: seq<Chapter>, slug: string -> string): (slugs: seq<string>)
    ensures |slugs| == |local|
    ensures forall i | 0 <= i < |local| :: slugs[i] == slug(local[i].pathName)
  {
    seq(|local|, i requires 0 <= i < |local| => slug(local[i].pathName))
  }

  /** The matched local chapter with the remote name as title, the remote date and the remote scanlator. */
  function UpdatedChapter(local: Chapter, remote: RemoteChapter): (c: Chapter)
    ensures c.pathName == local.pathName && c.chapterNumber == local.chapterNumber && c.pageCount == local.pageCount
    ensures c.title == Some(remote.name) && c.uploadDate == remote.uploadDate && c.scanlator == remote.scanlator
  {
    local.(title := Some(remote.name), uploadDate := remote.uploadDate, scanlator := remote.scanlator)
  }

  /** Whether some entry of the manga directory mentions "cover". */
  predicate HasCover(entryNames: seq<string>) {
    exists i | 0 <= i < |entryNames| :: Contains(entryNames[i], CoverWord)
  }

  /** `updateCovers`: no download when the directory has a cover, else the origin followed by the thumbnail path. */
  function CoverUrl(entryNames: seq<string>, origin: string, thumbnailUrl: string): (url: Option<string>)
    ensures url.None? <==> HasCover(entryNames)
    ensures url.Some? ==> url.value == origin + thumbnailUrl && |url.value| == |origin| + |thumbnailUrl|
  {
    if HasCover(entryNames) then None else Some(origin + thumbnailUrl)
  }

  // ---------------------------------------------------------------------------
  // The sync as a function of the store
  // ---------------------------------------------------------------------------

  /**
   * The chapter loop: each remote chapter goes to the first local chapter with
   * the same slug; a remote chapter without one ends the loop (the write with
   * an undefined path name throws).
   */
  function SyncChapters(kv: Store, id: int, local: seq<Chapter>, slugs: seq<string>, remote: seq<RemoteChapter>, slug: string -> string): ChapterSync
    requires |slugs| == |local|
    decreases |remote|
  {
    if remote == [] then Done(kv)
    else
      var index := Utils.FindIndex(slugs, slug(remote[0].name));
      if index < 0 then Unmatched(kv, remote[0].name)
      else SyncChapters(UpdateChapterIn(kv, UpdatedChapter(local[index], remote[0]), ById(id)), id, local, slugs, remote[1..], slug)
  }

  /**
   * `syncTachidesk` for the nodes of the response and the chapter list the
   * store returned after the record update.
   */
  function Sync(kv: Store, manga: Manga, nodes: seq<RemoteManga>, local: seq<Chapter>, slug: string -> string,
                entryNames: seq<string>, origin: string): (r: SyncRun)
    ensures nodes == [] <==> r.outcome.NotFound?
    ensures nodes == [] ==> r.kv == kv
  {
    if nodes == [] then SyncRun(kv, NotFound)
    else
      var picked := nodes[0];
      var merged := MergeManga(manga, picked);
      match SyncChapters(UpdateMangaIn(kv, merged), manga.id, local, Slugs(local, slug), picked.chapters, slug)
      case Unmatched(kv2, name) => SyncRun(kv2, Failed(merged, name))
      case Done(kv2) => SyncRun(kv2, Synced(merged, CoverUrl(entryNames, origin, picked.thumbnailUrl)))
  }

  // ---------------------------------------------------------------------------
  // Properties
  // ---------------------------------------------------------------------------

  /** The chapter loop only writes chapter records of manga `id` and never removes a key. */
  lemma {:induction false} SyncChaptersFrame(kv: Store, id: int, local: seq<Chapter>, slugs: seq<string>, remote: seq<RemoteChapter>, slug: string -> string)
    requires |slugs| == |local|
    ensures var r := SyncChapters(kv, id, local, slugs, remote, slug).kv;
      && kv.Keys <= r.Keys
      && forall k | k in kv && !ChapterKeyOf(k, id) :: r[k] == kv[k]
    decreases |remote|
  {
    if remote != [] {
      var index := Utils.FindIndex(slugs, slug(remote[0].name));
      if index >= 0 {
        var c := UpdatedChapter(local[index], remote[0]);
        var kv1 := UpdateChapterIn(kv, c, ById(id));
        assert kv1 == kv[ChapterKey(id, c.pathName) := ChapterRecord(c)];
        assert ChapterKeyOf(ChapterKey(id, c.pathName), id);
        SyncChaptersFrame(kv1, id, local, slugs, remote[1..], slug);
      }
    }
  }

  /** Whether a key is a chapter record key of manga `id`. */
  predicate ChapterKeyOf(k: Key, id: int) {
    |k| == 3 && k[0] == Tag(Chapters) && k[1] == Num(id)
  }

  lemma {:induction false} SyncChaptersKeepsWellFormed(kv: Store, id: int, local: seq<Chapter>, slugs: seq<string>, remote: seq<RemoteChapter>, slug: string -> string)
    requires |slugs| == |local| && WellFormed(kv) && MangaKey(id) in kv
    ensures WellFormed(SyncChapters(kv, id, local, slugs, remote, slug).kv)
    decreases |remote|
  {
    if remote != [] {
      var index := Utils.FindIndex(slugs, slug(remote[0].name));
      if index >= 0 {
        var c := UpdatedChapter(local[index], remote[0]);
        UpdateChapterKeepsWellFormed(kv, c, ById(id));
        SyncChaptersFrame(UpdateChapterIn(kv, c, ById(id)), id, local, slugs, remote[1..], slug);
        SyncChaptersKeepsWellFormed(UpdateChapterIn(kv, c, ById(id)), id, local, slugs, remote[1..], slug);
      }
    }
  }

  /**
   * The loop fails exactly when some remote chapter's slug matches no local
   * slug, and then it names the first such chapter.
   */
  lemma {:induction false} SyncChaptersFailsIff(kv: Store, id: int, local: seq<Chapter>, slugs: seq<string>, remote: seq<RemoteChapter>, slug: string -> string)
    requires |slugs| == |local|
    ensures var r := SyncChapters(kv, id, local, slugs, remote, slug);
      && (r.Unmatched? <==> exists j | 0 <= j < |remote| :: slug(remote[j].name) !in slugs)
      && (r.Unmatched? ==> exists j | 0 <= j < |remote| ::
            r.name == remote[j].name && slug(remote[j].name) !in slugs
            && forall k | 0 <= k < j :: slug(remote[k].name) in slugs)
    decreases |remote|
  {
    if remote != [] {
      var index := Utils.FindIndex(slugs, slug(remote[0].name));
      if index >= 0 {
        var kv1 := UpdateChapterIn(kv, UpdatedChapter(local[index], remote[0]), ById(id));
        SyncChaptersFailsIff(kv1, id, local, slugs, remote[1..], slug);
        var r := SyncChapters(kv, id, local, slugs, remote, slug);
        assert r == SyncChapters(kv1, id, local, slugs, remote[1..], slug);
        if exists j | 0 <= j < |remote| :: slug(remote[j].name) !in slugs {
          var j :| 0 <= j < |remote| && slug(remote[j].name) !in slugs;
          assert j > 0 && remote[1..][j - 1] == remote[j];
        }
        if r.Unmatched? {
          var j :| 0 <= j < |remote[1..]| && r.name == remote[1..][j].name && slug(remote[1..][j].name) !in slugs
            && forall k | 0 <= k < j :: slug(remote[1..][k].name) in slugs;
          assert remote[1..][j] == remote[j + 1];
          forall k | 0 <= k < j + 1 ensures slug(remote[k].name) in slugs {
            if k > 0 {
              assert remote[k] == remote[1..][k - 1];
            }
          }
        } else {
          forall j | 0 <= j < |remote| ensures slug(remote[j].name) in slugs {
            if j > 0 {
              assert remote[j] == remote[1..][j - 1];
            }
          }
        }
      }
    }
  }

  /** The last remote chapter whose first slug match is local chapter `i`. */
  function LastMatch(slugs: seq<string>, remote: seq<RemoteChapter>, slug: string -> string, i: int): (m: Option<RemoteChapter>)
    ensures m.Some? ==> m.value in remote && Utils.FindIndex(slugs, slug(m.value.name)) == i
  {
    if remote == [] then None
    else match LastMatch(slugs, remote[1..], slug, i)
      case Some(rc) => Some(rc)
      case None => if Utils.FindIndex(slugs, slug(remote[0].name)) == i then Some(remote[0]) else None
  }

  /** Whether the local chapters have distinct path names (what `getMangaChapters` returns does). */
  predicate DistinctLocal(local: seq<Chapter>) {
    forall i, j | 0 <= i < j < |local| :: local[i].pathName != local[j].pathName
  }

  /**
   * When every remote chapter matched, each local chapter holds the values of
   * the last remote chapter matched to it, and one that no remote chapter
   * matched is as it was.
   */
  lemma {:induction false} SyncChaptersLastMatchWins(kv: Store, id: int, local: seq<Chapter>, slugs: seq<string>, remote: seq<RemoteChapter>, slug: string -> string)
    requires |slugs| == |local| && DistinctLocal(local)
    ensures var r := SyncChapters(kv, id, local, slugs, remote, slug);
      r.Done? ==> forall i | 0 <= i < |local| ::
        GetChapter(r.kv, local[i].pathName, ById(id)) ==
          match LastMatch(slugs, remote, slug, i)
          case Some(rc) => Some(UpdatedChapter(local[i], rc))
          case None => GetChapter(kv, local[i].pathName, ById(id))
    decreases |remote|
  {
    if remote != [] {
      var index := Utils.FindIndex(slugs, slug(remote[0].name));
      if index >= 0 {
        var c := UpdatedChapter(local[index], remote[0]);
        var kv1 := UpdateChapterIn(kv, c, ById(id));
        SyncChaptersLastMatchWins(kv1, id, local, slugs, remote[1..], slug);
        var r := SyncChapters(kv, id, local, slugs, remote, slug);
        assert r == SyncChapters(kv1, id, local, slugs, remote[1..], slug);
        if r.Done? {
          forall i | 0 <= i < |local|
            ensures GetChapter(r.kv, local[i].pathName, ById(id)) ==
              match LastMatch(slugs, remote, slug, i)
              case Some(rc) => Some(UpdatedChapter(local[i], rc))
              case None => GetChapter(kv, local[i].pathName, ById(id))
          {
            if LastMatch(slugs, remote[1..], slug, i).None? {
              if index == i {
                assert GetChapter(kv1, local[i].pathName, ById(id)) == Some(c);
              } else {
                assert local[index].pathName != local[i].pathName;
                assert GetChapter(kv1, local[i].pathName, ById(id)) == GetChapter(kv, local[i].pathName, ById(id));
              }
            }
          }
        }
      }
    }
  }

  /** With at least one node, the merged record is what is stored and what is returned. */
  lemma SyncStoresMerged(kv: Store, manga: Manga, nodes: seq<RemoteManga>, local: seq<Chapter>, slug: string -> string,
                         entryNames: seq<string>, origin: string)
    requires nodes != []
    ensures var r, merged := Sync(kv, manga, nodes, local, slug, entryNames, origin), MergeManga(manga, nodes[0]);
      && !r.outcome.NotFound? && r.outcome.merged == merged
      && GetManga(r.kv, ById(manga.id)) == Some(merged)
  {
    var merged := MergeManga(manga, nodes[0]);
    var kv1 := UpdateMangaIn(kv, merged);
    SyncUnfold(kv, manga, nodes, local, slug, entryNames, origin);
    SyncChaptersFrame(kv1, manga.id, local, Slugs(local, slug), nodes[0].chapters, slug);
    assert MangaKey(manga.id) in kv1 && kv1[MangaKey(manga.id)] == MangaRecord(merged);
    assert !ChapterKeyOf(MangaKey(manga.id), manga.id);
  }

  /** With at least one node, the sync fails exactly when some remote chapter's slug matches no local one. */
  lemma SyncFailsIff(kv: Store, manga: Manga, nodes: seq<RemoteManga>, local: seq<Chapter>, slug: string -> string,
                     entryNames: seq<string>, origin: string)
    requires nodes != []
    ensures var r, remote := Sync(kv, manga, nodes, local, slug, entryNames, origin), nodes[0].chapters;
      r.outcome.Failed? <==> exists j | 0 <= j < |remote| :: slug(remote[j].name) !in Slugs(local, slug)
  {
    var kv1 := UpdateMangaIn(kv, MergeManga(manga, nodes[0]));
    SyncUnfold(kv, manga, nodes, local, slug, entryNames, origin);
    SyncChaptersFailsIff(kv1, manga.id, local, Slugs(local, slug), nodes[0].chapters, slug);
  }

  /**
   * After a sync in which every remote chapter matched, each chapter of the
   * listing holds the values of the last remote chapter matched to it, or its
   * own values when none was; the cover URL is the one `updateCovers` builds.
   */
  lemma SyncUpdatesChapters(kv: Store, manga: Manga, nodes: seq<RemoteManga>, local: seq<Chapter>, slug: string -> string,
                            entryNames: seq<string>, origin: string)
    requires nodes != []
    requires ListsChapters(UpdateMangaIn(kv, MergeManga(manga, nodes[0])), manga.id, local)
    ensures var r, remote := Sync(kv, manga, nodes, local, slug, entryNames, origin), nodes[0].chapters;
      r.outcome.Synced? ==>
        && r.outcome.coverUrl == CoverUrl(entryNames, origin, nodes[0].thumbnailUrl)
        && forall i | 0 <= i < |local| ::
             GetChapter(r.kv, local[i].pathName, ById(manga.id)) ==
               Some(match LastMatch(Slugs(local, slug), remote, slug, i)
                    case Some(rc) => UpdatedChapter(local[i], rc)
                    case None => local[i])
  {
    var kv1 := UpdateMangaIn(kv, MergeManga(manga, nodes[0]));
    SyncUnfold(kv, manga, nodes, local, slug, entryNames, origin);
    ListedChapters(kv1, manga.id, local);
    SyncChaptersLastMatchWins(kv1, manga.id, local, Slugs(local, slug), nodes[0].chapters, slug);
  }

  /** A sync with at least one node, in terms of its chapter loop. */
  lemma SyncUnfold(kv: Store, manga: Manga, nodes: seq<RemoteManga>, local: seq<Chapter>, slug: string -> string,
                   entryNames: seq<string>, origin: string)
    requires nodes != []
    ensures var r, merged := Sync(kv, manga, nodes, local, slug, entryNames, origin), MergeManga(manga, nodes[0]);
      var sc := SyncChapters(UpdateMangaIn(kv, merged), manga.id, local, Slugs(local, slug), nodes[0].chapters, slug);
      && r.kv == sc.kv && !r.outcome.NotFound? && r.outcome.merged == merged
      && (r.outcome.Failed? <==> sc.Unmatched?)
      && (r.outcome.Synced? ==> r.outcome.coverUrl == CoverUrl(entryNames, origin, nodes[0].thumbnailUrl))
  {
  }

  /** Each chapter of a listing is found under its path name. */
  lemma ListedChapters(kv: Store, id: int, local: seq<Chapter>)
    requires ListsChapters(kv, id, local)
    ensures DistinctLocal(local)
    ensures forall i | 0 <= i < |local| :: GetChapter(kv, local[i].pathName, ById(id)) == Some(local[i])
  {
  }

  /**
   * The record a scan hands to the sync has no cover, so a sync right after
   * adding a manga stores it without the cover the scan had found.
   */
  lemma SyncAfterScanDropsCover(kv: Store, source: string, m: Scanner.MangaDir, cfg: Scanner.Config, now: int,
                                nodes: seq<RemoteManga>, local: seq<Chapter>, slug: string -> string,
                                entryNames: seq<string>, origin: string)
    requires HasCounter(kv) && nodes != []
    ensures var id, scanned := Counter(kv), Scanner.ScanManga(kv, source, m, cfg, now);
      var synced := Sync(scanned.kv, scanned.handed[0], nodes, local, slug, entryNames, origin);
      && GetManga(scanned.kv, ById(id)).Some? && GetManga(scanned.kv, ById(id)).value.cover == Scanner.LastCover(m.entries)
      && GetManga(synced.kv, ById(id)).Some? && GetManga(synced.kv, ById(id)).value.cover == None
  {
    Scanner.ScanMangaRecord(kv, source, m, cfg, now);
    var scanned := Scanner.ScanManga(kv, source, m, cfg, now);
    SyncStoresMerged(scanned.kv, scanned.handed[0], nodes, local, slug, entryNames, origin);
  }

  // ---------------------------------------------------------------------------
  // The sync, step by step against the store
  // ---------------------------------------------------------------------------

  /** `updateCovers`' scan of the manga directory for an entry mentioning "cover". */
  method DirHasCover(entryNames: seq<string>) returns (hasCover: bool)
    ensures hasCover <==> HasCover(entryNames)
  {
    hasCover := false;
    var i := 0;
    while i < |entryNames|
      invariant 0 <= i <= |entryNames|
      invariant hasCover <==> exists j | 0 <= j < i :: Contains(entryNames[j], CoverWord)
    {
      if Contains(entryNames[i], CoverWord) {
        hasCover := true;
      }
      i := i + 1;
    }
  }

  /**
   * `syncTachidesk` on the nodes of the response. `local` is the chapter
   * list the store returned after the record update.
   */
  method SyncTachidesk(db: Db, manga: Manga, nodes: seq<RemoteManga>, slug: string -> string,
                       entryNames: seq<string>, origin: string) returns (outcome: SyncOutcome, ghost local: seq<Chapter>)
    requires db.Valid() && MangaKey(manga.id) in db.kv
    modifies db
    ensures db.Valid()
    ensures nodes != [] ==> ListsChapters(UpdateMangaIn(old(db.kv), MergeManga(manga, nodes[0])), manga.id, local)
    ensures Sync(old(db.kv), manga, nodes, local, slug, entryNames, origin) == SyncRun(db.kv, outcome)
  {
    local := [];
    if |nodes| < 1 {
      return NotFound, local;
    }
    var picked := nodes[0];
    var mangaReturn := MergeManga(manga, picked);
    db.UpdateManga(mangaReturn);
    var chapters := db.GetMangaChapters(ById(manga.id));
    local := chapters;
    var chaptersSlug := Slugs(chapters, slug);
    ghost var start := db.kv;
    var i := 0;
    while i < |picked.chapters|
      invariant 0 <= i <= |picked.chapters|
      invariant db.Valid() && MangaKey(manga.id) in db.kv
      invariant SyncChapters(start, manga.id, chapters, chaptersSlug, picked.chapters, slug)
        == SyncChapters(db.kv, manga.id, chapters, chaptersSlug, picked.chapters[i..], slug)
    {
      var chapter := picked.chapters[i];
      assert picked.chapters[i..][0] == chapter && picked.chapters[i..][1..] == picked.chapters[i + 1..];
      var index := Utils.FindIndex(chaptersSlug, slug(chapter.name));
      if index < 0 {
        return Failed(mangaReturn, chapter.name), local;
      }
      db.UpdateChapter(UpdatedChapter(chapters[index], chapter), ById(manga.id));
      i := i + 1;
    }
    var hasCover := DirHasCover(entryNames);
    var coverUrl := if hasCover then None else Some(origin + picked.thumbnailUrl);
    outcome := Synced(mangaReturn, coverUrl);
  }
}
