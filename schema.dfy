/**
 * The catalog's records as the in-memory store builds them, and the
 * shallow merges its two update operations perform.
 */
module Schema {
  import opened Wrappers

  /** A user account; `provider` is "local" or the name of an external identity provider. */
  datatype User = User(
    id: int,
    username: string,
    password: Option<string>,
    email: Option<string>,
    avatarUrl: Option<string>,
    provider: string,
    providerId: Option<string>,
    isAdmin: bool)

  /** The fields a caller supplies to create a user. */
  datatype InsertUser = InsertUser(
    username: string,
    password: Option<string>,
    email: Option<string>,
    avatarUrl: Option<string>,
    provider: Option<string>,
    providerId: Option<string>,
    isAdmin: Option<bool>)

  datatype Genre = Genre(id: int, name: string)

  datatype Category = Category(id: int, name: string)

  /** A title of the catalog; `createdAt` is a reading of the store's clock. */
  datatype Manga = Manga(
    id: int,
    title: string,
    description: string,
    author: string,
    coverImage: string,
    rating: Option<int>,
    status: string,
    genreIds: seq<int>,
    categoryIds: seq<int>,
    createdAt: nat)

  datatype InsertManga = InsertManga(
    title: string,
    description: string,
    author: string,
    coverImage: string,
    rating: Option<int>,
    status: string,
    genreIds: seq<int>,
    categoryIds: seq<int>)

  /**
   * A partial manga update: `None` is a field the request leaves out. `rating`
   * is nullable, so a supplied rating is itself optional (`Some(None)` is null).
   */
  datatype MangaPatch = MangaPatch(
    title: Option<string>,
    description: Option<string>,
    author: Option<string>,
    coverImage: Option<string>,
    rating: Option<Option<int>>,
    status: Option<string>,
    genreIds: Option<seq<int>>,
    categoryIds: Option<seq<int>>)

  /** A chapter's payload: page images, a document URL, or (after some updates) neither. */
  datatype ChapterContent = ChapterContent(images: Option<seq<string>>, pdfUrl: Option<string>)

  datatype Chapter = Chapter(
    id: int,
    mangaId: int,
    title: string,
    chapterNumber: int,
    contentType: string,
    content: ChapterContent,
    createdAt: nat)

  datatype InsertChapter = InsertChapter(
    mangaId: int,
    title: string,
    chapterNumber: int,
    contentType: string,
    content: ChapterContent)

  datatype ChapterPatch = ChapterPatch(
    mangaId: Option<int>,
    title: Option<string>,
    chapterNumber: Option<int>,
    contentType: Option<string>,
    content: Option<ChapterContent>)

  datatype Comment = Comment(id: int, mangaId: int, userId: int, content: string, createdAt: nat)

  datatype InsertComment = InsertComment(mangaId: int, userId: int, content: string)

  /** `s || null`: an absent or empty string becomes null. */
  function OrNull(s: Option<string>): Option<string> {
    if s.Some? && s.value != "" then s else None
  }

  /** The user record `createUser` builds from `u` under id `id`. */
  function NewUser(u: InsertUser, id: int): User {
    User(id, u.username, u.password, OrNull(u.email), OrNull(u.avatarUrl),
         if u.provider.Some? && u.provider.value != "" then u.provider.value else "local",
         OrNull(u.providerId), u.isAdmin == Some(true))
  }

  /**
   * Defaults of a new account: no admin rights unless asked for with `true`;
   * "local" unless a non-empty provider is named; e-mail, avatar and provider
   * id kept when non-empty and null otherwise.
   */
  lemma NewUserDefaults(u: InsertUser, id: int)
    ensures NewUser(u, id).id == id && NewUser(u, id).username == u.username
    ensures NewUser(u, id).password == u.password
    ensures NewUser(u, id).isAdmin <==> u.isAdmin == Some(true)
    ensures u.provider.Some? && u.provider.value != "" ==> NewUser(u, id).provider == u.provider.value
    ensures u.provider.None? || u.provider == Some("") ==> NewUser(u, id).provider == "local"
    ensures u.email.Some? && u.email.value != "" ==> NewUser(u, id).email == u.email
    ensures u.email.None? || u.email == Some("") ==> NewUser(u, id).email.None?
    ensures u.avatarUrl.Some? && u.avatarUrl.value != "" ==> NewUser(u, id).avatarUrl == u.avatarUrl
    ensures u.avatarUrl.None? || u.avatarUrl == Some("") ==> NewUser(u, id).avatarUrl.None?
    ensures u.providerId.Some? && u.providerId.value != "" ==> NewUser(u, id).providerId == u.providerId
    ensures u.providerId.None? || u.providerId == Some("") ==> NewUser(u, id).providerId.None?
  {
  }

  function NewManga(m: InsertManga, id: int, now: nat): Manga {
    Manga(id, m.title, m.description, m.author, m.coverImage, m.rating, m.status,
          m.genreIds, m.categoryIds, now)
  }

  function NewChapter(c: InsertChapter, id: int, now: nat): Chapter {
    Chapter(id, c.mangaId, c.title, c.chapterNumber, c.contentType, c.content, now)
  }

  function NewComment(c: InsertComment, id: int, now: nat): Comment {
    Comment(id, c.mangaId, c.userId, c.content, now)
  }

  /** `{ ...m, ...p }`: every supplied field replaces the old value wholesale. */
  function MergeManga(m: Manga, p: MangaPatch): Manga {
    Manga(m.id,
          p.title.GetOr(m.title),
          p.description.GetOr(m.description),
          p.author.GetOr(m.author),
          p.coverImage.GetOr(m.coverImage),
          p.rating.GetOr(m.rating),
          p.status.GetOr(m.status),
          p.genreIds.GetOr(m.genreIds),
          p.categoryIds.GetOr(m.categoryIds),
          m.createdAt)
  }

  /**
   * `{ ...c, ...p, content: { images: p.content?.images, pdfUrl: p.content?.pdfUrl } }`:
   * a shallow merge whose content always comes from the update alone.
   */
  function MergeChapter(c: Chapter, p: ChapterPatch): Chapter {
    Chapter(c.id,
            p.mangaId.GetOr(c.mangaId),
            p.title.GetOr(c.title),
            p.chapterNumber.GetOr(c.chapterNumber),
            p.contentType.GetOr(c.contentType),
            ChapterContent(if p.content.Some? then p.content.value.images else None,
                           if p.content.Some? then p.content.value.pdfUrl else None),
            c.createdAt)
  }

  /** The patch that supplies no field. */
  const NoMangaChange := MangaPatch(None, None, None, None, None, None, None, None)

  /** A manga update never touches `id` or `createdAt`, and an empty patch changes nothing. */
  lemma MergeMangaKeepsIdentity(m: Manga, p: MangaPatch)
    ensures MergeManga(m, p).id == m.id && MergeManga(m, p).createdAt == m.createdAt
    ensures MergeManga(m, NoMangaChange) == m
  {
  }

  /** Supplied fields, arrays included, are taken as given; the other fields keep their value. */
  lemma MergeMangaFields(m: Manga, p: MangaPatch)
    ensures p.title.Some? ==> MergeManga(m, p).title == p.title.value
    ensures p.title.None? ==> MergeManga(m, p).title == m.title
    ensures p.description.Some? ==> MergeManga(m, p).description == p.description.value
    ensures p.description.None? ==> MergeManga(m, p).description == m.description
    ensures p.author.Some? ==> MergeManga(m, p).author == p.author.value
    ensures p.author.None? ==> MergeManga(m, p).author == m.author
    ensures p.coverImage.Some? ==> MergeManga(m, p).coverImage == p.coverImage.value
    ensures p.coverImage.None? ==> MergeManga(m, p).coverImage == m.coverImage
    ensures p.rating.Some? ==> MergeManga(m, p).rating == p.rating.value
    ensures p.rating.None? ==> MergeManga(m, p).rating == m.rating
    ensures p.status.Some? ==> MergeManga(m, p).status == p.status.value
    ensures p.status.None? ==> MergeManga(m, p).status == m.status
    ensures p.genreIds.Some? ==> MergeManga(m, p).genreIds == p.genreIds.value
    ensures p.genreIds.None? ==> MergeManga(m, p).genreIds == m.genreIds
    ensures p.categoryIds.Some? ==> MergeManga(m, p).categoryIds == p.categoryIds.value
    ensures p.categoryIds.None? ==> MergeManga(m, p).categoryIds == m.categoryIds
  {
  }

  /** Applying the same manga update twice is the same as applying it once. */
  lemma MergeMangaIdempotent(m: Manga, p: MangaPatch)
    ensures MergeManga(MergeManga(m, p), p) == MergeManga(m, p)
  {
  }

  /**
   * The content after a chapter update is the update's content, and nothing of
   * the old content survives: an update without content clears both parts.
   */
  lemma MergeChapterContent(c: Chapter, p: ChapterPatch)
    ensures MergeChapter(c, p).content == p.content.GetOr(ChapterContent(None, None))
    ensures p.content.None? ==> MergeChapter(c, p).content.images.None? && MergeChapter(c, p).content.pdfUrl.None?
    ensures MergeChapter(c, p).id == c.id && MergeChapter(c, p).createdAt == c.createdAt
    ensures p.mangaId.Some? ==> MergeChapter(c, p).mangaId == p.mangaId.value
    ensures p.mangaId.None? ==> MergeChapter(c, p).mangaId == c.mangaId
    ensures p.title.Some? ==> MergeChapter(c, p).title == p.title.value
    ensures p.title.None? ==> MergeChapter(c, p).title == c.title
    ensures p.chapterNumber.Some? ==> MergeChapter(c, p).chapterNumber == p.chapterNumber.value
    ensures p.chapterNumber.None? ==> MergeChapter(c, p).chapterNumber == c.chapterNumber
    ensures p.contentType.Some? ==> MergeChapter(c, p).contentType == p.contentType.value
    ensures p.contentType.None? ==> MergeChapter(c, p).contentType == c.contentType
  {
  }

  // Sort keys and ids. A descending comparator `b.x - a.x` is an ascending sort on `-x`.

  function ChapterNumberOf(c: Chapter): int { c.chapterNumber }
  function ByChapterNumberDesc(c: Chapter): int { -c.chapterNumber }
  function ByChapterCreatedDesc(c: Chapter): int { -(c.createdAt as int) }
  function ChapterIdOf(c: Chapter): int { c.id }
  function ByCommentCreatedDesc(c: Comment): int { -(c.createdAt as int) }
  function CommentIdOf(c: Comment): int { c.id }
  function UserIdOf(u: User): int { u.id }
  function GenreIdOf(g: Genre): int { g.id }
  function CategoryIdOf(c: Category): int { c.id }
  function MangaIdOf(m: Manga): int { m.id }
}
