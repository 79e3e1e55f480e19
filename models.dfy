/** The catalog's record types (src/models.ts). Dates are integer milliseconds. */
module Models {
  import opened Wrappers

  /** `StatusType`: the five publication states a manga can be in. */
  datatype Status = ONGOING | COMPLETED | HIATUS | DROPPED | UNKNOWN

  /** `MangaSchema`. Optional TypeScript fields are `Option`s. */
  datatype Manga = Manga(
    id: int,
    title: Option<string>,
    pathName: string,
    artist: Option<string>,
    author: Option<string>,
    source: string,
    cover: Option<string>,
    status: Status,
    description: Option<string>,
    genres: Option<seq<string>>)

  /** `ChapterSchema`. */
  datatype Chapter = Chapter(
    title: Option<string>,
    pathName: string,
    scanlator: Option<string>,
    pageCount: int,
    chapterNumber: int,
    uploadDate: int)
}
