/**
 * The in-memory catalog store: six insertion-ordered maps keyed by
 * auto-incremented ids, the read views the HTTP layer serves, and the
 * create, update and delete operations.
 */
module Storage {
  import opened Wrappers
  import opened Seqs
  import opened Text
  import opened Tables
  import opened Schema

  /** One row of the "latest updates" listing; `manga` is absent when the chapter's title is gone. */
  datatype LatestUpdate = LatestUpdate(manga: Option<Manga>, latestChapter: Chapter)

  /** One row of the "latest chapters" listing. */
  datatype ChapterWithManga = ChapterWithManga(manga: Option<Manga>, chapter: Chapter)

  /** A comment enriched with its author's display name and avatar. */
  datatype CommentView = CommentView(comment: Comment, username: string, avatarUrl: Option<string>)

  /** A title with its genres, categories, chapters and enriched comments. */
  datatype MangaWithRelations = MangaWithRelations(
    manga: Manga,
    genres: seq<Option<Genre>>,
    categories: seq<Option<Category>>,
    chapters: seq<Chapter>,
    comments: seq<CommentView>)

  /** The account the store starts with. */
  const AdminSeed := InsertUser("admin", Some("admin123"), None, None, None, None, Some(true))

  /** The genres the store starts with, in creation order. */
  const SeedGenres: seq<string> := ["Action", "Adventure", "Romance", "Fantasy", "Horror", "Comedy", "Sci-Fi"]

  /** The categories the store starts with, in creation order. */
  const SeedCategories: seq<string> := ["Shonen", "Seinen", "Shoujo", "Josei"]

  /** Keys ascend, every key was handed out by a counter now at `next`, and each record carries its key as id. */
  ghost predicate WellKeyed<T>(t: Table<T>, next: int, id: T -> int) {
    Ascending(t) && forall i :: 0 <= i < |t| ==> 1 <= t[i].0 < next && id(t[i].1) == t[i].0
  }

  /** In a well-keyed table the records, in insertion order, have increasing ids. */
  lemma WellKeyedIdsIncreasing<T>(t: Table<T>, next: int, id: T -> int)
    requires WellKeyed(t, next, id)
    ensures IdsIncreasing(Values(t), id)
    ensures DistinctBy(Values(t), id)
  {
  }

  /** Storing a record under the counter's next id appends it and keeps the table well keyed. */
  lemma SetFreshKey<T>(t: Table<T>, next: int, id: T -> int, v: T)
    requires WellKeyed(t, next, id)
    requires id(v) == next && 1 <= next
    ensures next !in Keys(t)
    ensures Set(t, next, v) == t + [(next, v)]
    ensures WellKeyed(Set(t, next, v), next + 1, id)
  {
    assert next !in Keys(t) by {
      forall i | 0 <= i < |t| ensures Keys(t)[i] != next {
      }
    }
  }

  /** Replacing the record under an existing key by one with the same id keeps the table well keyed. */
  lemma SetExistingKey<T>(t: Table<T>, next: int, id: T -> int, k: int, v: T)
    requires WellKeyed(t, next, id)
    requires k in Keys(t) && id(v) == k
    ensures WellKeyed(Set(t, k, v), next, id)
  {
    var r := Set(t, k, v);
    forall i, j | 0 <= i < j < |r| ensures r[i].0 < r[j].0 {
      assert r[i].0 == t[i].0 && r[j].0 == t[j].0;
    }
  }

  /** Removing entries keeps a table well keyed. */
  lemma RemoveKeepsWellKeyed<T>(t: Table<T>, next: int, id: T -> int, ks: set<int>)
    requires WellKeyed(t, next, id)
    ensures WellKeyed(RemoveKeys(t, ks), next, id)
  {
    var r := RemoveKeys(t, ks);
    RemoveKeysSubset(t, ks);
    RemoveKeysAscending(t, ks);
    forall i | 0 <= i < |r| ensures 1 <= r[i].0 < next && id(r[i].1) == r[i].0 {
      assert r[i] in t;
    }
  }

  /** No record of `t` was stamped after `clock`. */
  ghost predicate StampedBy<T>(t: Table<T>, stamp: T -> nat, clock: nat) {
    forall i :: 0 <= i < |t| ==> stamp(t[i].1) <= clock
  }

  /** Adding or replacing a record stamped no later than `clock` keeps every stamp at or before it. */
  lemma SetKeepsStamped<T>(t: Table<T>, stamp: T -> nat, clock: nat, k: int, v: T)
    requires StampedBy(t, stamp, clock) && stamp(v) <= clock
    ensures StampedBy(Set(t, k, v), stamp, clock)
  {
    var r := Set(t, k, v);
    if k !in Keys(t) {
      forall i | 0 <= i < |r| ensures stamp(r[i].1) <= clock {
        if i < |t| {
          assert r[i] == t[i];
        }
      }
    }
  }

  /** Stamps at or before a clock are at or before any later clock. */
  lemma StampedLater<T>(t: Table<T>, stamp: T -> nat, clock: nat, now: nat)
    requires StampedBy(t, stamp, clock) && clock <= now
    ensures StampedBy(t, stamp, now)
  {
  }

  /** Removing records keeps every stamp at or before `clock`. */
  lemma RemoveKeepsStamped<T>(t: Table<T>, stamp: T -> nat, clock: nat, ks: set<int>)
    requires StampedBy(t, stamp, clock)
    ensures StampedBy(RemoveKeys(t, ks), stamp, clock)
  {
    var r := RemoveKeys(t, ks);
    RemoveKeysSubset(t, ks);
    forall i | 0 <= i < |r| ensures stamp(r[i].1) <= clock {
      assert r[i] in t;
    }
  }

  function MangaCreated(m: Manga): nat { m.createdAt }
  function ChapterCreated(c: Chapter): nat { c.createdAt }
  function CommentCreated(c: Comment): nat { c.createdAt }

  /** The search predicate: the lowered query occurs in the lowered title, description or author. */
  predicate MatchesQuery(m: Manga, query: string) {
    var q := Lower(query);
    Contains(Lower(m.title), q) || Contains(Lower(m.description), q) || Contains(Lower(m.author), q)
  }

  /** The ids, in table order, of the chapters of manga `mangaId`. */
  function ChapterIdsOf(t: Table<Chapter>, mangaId: int): (ids: seq<int>)
    ensures forall i :: 0 <= i < |ids| ==> ids[i] in Keys(t)
  {
    if t == [] then []
    else (if t[0].1.mangaId == mangaId then [t[0].0] else []) + ChapterIdsOf(t[1..], mangaId)
  }

  /** The chapters table without the chapters of manga `mangaId`. */
  function ChaptersNotOf(t: Table<Chapter>, mangaId: int): (r: Table<Chapter>)
    ensures forall i :: 0 <= i < |r| ==> r[i] in t && r[i].1.mangaId != mangaId
    ensures forall i :: 0 <= i < |t| && t[i].1.mangaId != mangaId ==> t[i] in r
  {
    if t == [] then []
    else (if t[0].1.mangaId != mangaId then [t[0]] else []) + ChaptersNotOf(t[1..], mangaId)
  }

  /** Deleting, one by one, the ids collected for a manga leaves exactly the other mangas' chapters, in order. */
  lemma {:induction false} CascadeRemovesChaptersOf(t: Table<Chapter>, mangaId: int)
    requires DistinctKeys(t)
    ensures RemoveKeys(t, SetOf(ChapterIdsOf(t, mangaId))) == ChaptersNotOf(t, mangaId)
  {
    if t != [] {
      var rest := t[1..];
      assert DistinctKeys(rest) by {
        forall i, j | 0 <= i < j < |rest| ensures rest[i].0 != rest[j].0 {
          assert rest[i] == t[i + 1] && rest[j] == t[j + 1];
        }
      }
      CascadeRemovesChaptersOf(rest, mangaId);
      var ids' := ChapterIdsOf(rest, mangaId);
      var s' := SetOf(ids');
      forall j | 0 <= j < |rest| ensures Keys(rest)[j] != t[0].0 {
        assert rest[j] == t[j + 1];
      }
      assert t[0].0 !in s';
      assert t == [t[0]] + rest;
      if t[0].1.mangaId == mangaId {
        assert ChapterIdsOf(t, mangaId) == [t[0].0] + ids';
        assert ([t[0].0] + ids')[1..] == ids';
        assert SetOf(ChapterIdsOf(t, mangaId)) == {t[0].0} + s';
        forall i | 0 <= i < |rest| ensures rest[i].0 !in {t[0].0} {
          assert rest[i] == t[i + 1];
        }
        RemoveAbsentKeys(rest, s', {t[0].0});
        assert s' + {t[0].0} == {t[0].0} + s';
      } else {
        assert ChapterIdsOf(t, mangaId) == ids';
      }
    }
  }

  /** Deleting the next collected id extends the set of removed ids by one. */
  lemma RemoveOneMore(t: Table<Chapter>, ids: seq<int>, i: int)
    requires 0 <= i < |ids|
    ensures Delete(RemoveKeys(t, SetOf(ids[..i])), ids[i]) == RemoveKeys(t, SetOf(ids[..i + 1]))
  {
    RemoveKeysTwice(t, SetOf(ids[..i]), {ids[i]});
    assert ids[..i + 1] == ids[..i] + [ids[i]];
    SetOfSnoc(ids[..i], ids[i]);
  }

  /** The chapters table after deleting the first `i` of the collected ids, one at a time. */
  function CascadeAfter(t: Table<Chapter>, ids: seq<int>, i: nat): Table<Chapter>
    requires i <= |ids|
  {
    if i == 0 then t else Delete(CascadeAfter(t, ids, i - 1), ids[i - 1])
  }

  lemma {:induction false} CascadeAfterRemoves(t: Table<Chapter>, ids: seq<int>, i: nat)
    requires i <= |ids|
    ensures CascadeAfter(t, ids, i) == RemoveKeys(t, SetOf(ids[..i]))
  {
    if i == 0 {
      RemoveNoKeys(t);
      assert SetOf(ids[..0]) == {};
    } else {
      CascadeAfterRemoves(t, ids, i - 1);
      RemoveOneMore(t, ids, i - 1);
    }
  }

  /** After the cascade the chapters table is the other titles' chapters, still well keyed and stamped. */
  lemma CascadeResult(t: Table<Chapter>, next: int, clock: nat, mangaId: int)
    requires WellKeyed(t, next, ChapterIdOf) && StampedBy(t, ChapterCreated, clock)
    ensures var r := CascadeAfter(t, ChapterIdsOf(t, mangaId), |ChapterIdsOf(t, mangaId)|);
      r == ChaptersNotOf(t, mangaId) && WellKeyed(r, next, ChapterIdOf) && StampedBy(r, ChapterCreated, clock)
  {
    var ids := ChapterIdsOf(t, mangaId);
    CascadeAfterRemoves(t, ids, |ids|);
    assert ids[..|ids|] == ids;
    CascadeRemovesChaptersOf(t, mangaId);
    RemoveKeepsWellKeyed(t, next, ChapterIdOf, SetOf(ChapterIdsOf(t, mangaId)));
    RemoveKeepsStamped(t, ChapterCreated, clock, SetOf(ChapterIdsOf(t, mangaId)));
  }

  /** One step of the latest-chapter scan: keep the chapter if its title has none yet or it has a higher number. */
  function RecordLatest(acc: Table<Chapter>, c: Chapter): Table<Chapter> {
    var existing := Get(acc, c.mangaId);
    if existing.None? || c.chapterNumber > existing.value.chapterNumber then Set(acc, c.mangaId, c) else acc
  }

  /** The map the scan builds after visiting `chs` in order. */
  function LatestPerManga(chs: seq<Chapter>): Table<Chapter>
    decreases |chs|
  {
    if chs == [] then [] else RecordLatest(LatestPerManga(chs[..|chs| - 1]), chs[|chs| - 1])
  }

  /**
   * `chs[j]` is what the scan keeps for its title: every earlier chapter of the
   * title has a strictly lower number, every later one a number no higher.
   */
  ghost predicate IsLatestAt(chs: seq<Chapter>, j: int) {
    0 <= j < |chs| &&
    forall i :: 0 <= i < |chs| && chs[i].mangaId == chs[j].mangaId ==>
      (i < j ==> chs[i].chapterNumber < chs[j].chapterNumber) &&
      (j < i ==> chs[i].chapterNumber <= chs[j].chapterNumber)
  }

  /**
   * What the scan's map holds after visiting `chs`: one entry per title that
   * has a chapter, keyed by that title, holding the chapter the scan keeps.
   */
  ghost predicate LatestMapOf(acc: Table<Chapter>, chs: seq<Chapter>) {
    DistinctKeys(acc) && |acc| <= |chs| &&
    (forall i :: 0 <= i < |acc| ==>
      acc[i].0 == acc[i].1.mangaId && exists j :: IsLatestAt(chs, j) && chs[j] == acc[i].1) &&
    (forall j :: 0 <= j < |chs| ==> chs[j].mangaId in Keys(acc))
  }

  /** A later chapter of another title, or one numbered no higher, leaves the kept chapter in place. */
  lemma ExtendLatest(pre: seq<Chapter>, c: Chapter, j: int)
    requires IsLatestAt(pre, j)
    requires pre[j].mangaId != c.mangaId || c.chapterNumber <= pre[j].chapterNumber
    ensures IsLatestAt(pre + [c], j)
  {
    var chs := pre + [c];
    forall i | 0 <= i < |chs| && chs[i].mangaId == chs[j].mangaId
      ensures (i < j ==> chs[i].chapterNumber < chs[j].chapterNumber)
      ensures (j < i ==> chs[i].chapterNumber <= chs[j].chapterNumber)
    {
      if i < |pre| {
        assert chs[i] == pre[i];
      }
    }
  }

  /** A chapter numbered above every earlier chapter of its title is what the scan keeps. */
  lemma LastIsLatest(pre: seq<Chapter>, c: Chapter)
    requires forall i :: 0 <= i < |pre| && pre[i].mangaId == c.mangaId ==> pre[i].chapterNumber < c.chapterNumber
    ensures IsLatestAt(pre + [c], |pre|)
  {
    var chs := pre + [c];
    forall i | 0 <= i < |chs| && chs[i].mangaId == c.mangaId && i < |pre|
      ensures chs[i].chapterNumber < c.chapterNumber
    {
      assert chs[i] == pre[i];
    }
  }

  /** Entries of titles other than `c`'s keep their chapter when `c` is visited. */
  lemma OtherTitlesKept(pre: seq<Chapter>, c: Chapter, a: Table<Chapter>)
    requires LatestMapOf(a, pre)
    ensures forall i :: 0 <= i < |a| && a[i].0 != c.mangaId ==>
      exists j :: IsLatestAt(pre + [c], j) && (pre + [c])[j] == a[i].1
  {
    forall i | 0 <= i < |a| && a[i].0 != c.mangaId
      ensures exists j :: IsLatestAt(pre + [c], j) && (pre + [c])[j] == a[i].1
    {
      var j :| IsLatestAt(pre, j) && pre[j] == a[i].1;
      ExtendLatest(pre, c, j);
      assert (pre + [c])[j] == pre[j];
    }
  }

  /** Visiting the first chapter of a title appends an entry for it. */
  lemma LatestStepNew(pre: seq<Chapter>, c: Chapter, a: Table<Chapter>)
    requires LatestMapOf(a, pre)
    requires Get(a, c.mangaId).None?
    ensures LatestMapOf(RecordLatest(a, c), pre + [c])
  {
    var a' := a + [(c.mangaId, c)];
    assert RecordLatest(a, c) == a';
    AppendKeepsDistinct(a, c.mangaId, c);
    NewTitleEntries(pre, c, a);
    NewTitleCovered(pre, c, a);
  }

  lemma NewTitleEntries(pre: seq<Chapter>, c: Chapter, a: Table<Chapter>)
    requires LatestMapOf(a, pre)
    requires c.mangaId !in Keys(a)
    ensures forall i :: 0 <= i < |a| + 1 ==>
      (a + [(c.mangaId, c)])[i].0 == (a + [(c.mangaId, c)])[i].1.mangaId &&
      exists j :: IsLatestAt(pre + [c], j) && (pre + [c])[j] == (a + [(c.mangaId, c)])[i].1
  {
    var m, chs, a' := c.mangaId, pre + [c], a + [(c.mangaId, c)];
    forall j | 0 <= j < |pre| ensures pre[j].mangaId != m {
      assert pre[j].mangaId in Keys(a);
    }
    LastIsLatest(pre, c);
    OtherTitlesKept(pre, c, a);
    forall i | 0 <= i < |a'| ensures a'[i].0 == a'[i].1.mangaId && exists j :: IsLatestAt(chs, j) && chs[j] == a'[i].1 {
      if i < |a| {
        assert a'[i] == a[i];
        assert a[i].0 in Keys(a);
      } else {
        assert chs[|pre|] == c;
      }
    }
  }

  lemma NewTitleCovered(pre: seq<Chapter>, c: Chapter, a: Table<Chapter>)
    requires LatestMapOf(a, pre)
    ensures forall j :: 0 <= j < |pre| + 1 ==> (pre + [c])[j].mangaId in Keys(a + [(c.mangaId, c)])
  {
    var chs, a' := pre + [c], a + [(c.mangaId, c)];
    assert Keys(a') == Keys(a) + [c.mangaId];
    forall j | 0 <= j < |chs| ensures chs[j].mangaId in Keys(a') {
      if j < |pre| {
        assert chs[j] == pre[j];
        assert pre[j].mangaId in Keys(a);
      }
    }
  }

  /** The chapter the map holds for a title is one the scan keeps for that title. */
  lemma KeptChapter(pre: seq<Chapter>, a: Table<Chapter>, m: int) returns (jp: int)
    requires LatestMapOf(a, pre)
    requires Get(a, m).Some?
    ensures IsLatestAt(pre, jp) && pre[jp] == Get(a, m).value && pre[jp].mangaId == m
  {
    var p :| 0 <= p < |a| && Keys(a)[p] == m;
    GetEntry(a, p);
    jp :| IsLatestAt(pre, jp) && pre[jp] == a[p].1;
  }

  /** Visiting a chapter numbered above the kept one replaces it in place. */
  lemma LatestStepReplace(pre: seq<Chapter>, c: Chapter, a: Table<Chapter>)
    requires LatestMapOf(a, pre)
    requires Get(a, c.mangaId).Some? && c.chapterNumber > Get(a, c.mangaId).value.chapterNumber
    ensures LatestMapOf(RecordLatest(a, c), pre + [c])
  {
    var m, chs, a' := c.mangaId, pre + [c], RecordLatest(a, c);
    var jp := KeptChapter(pre, a, m);
    forall i | 0 <= i < |pre| && pre[i].mangaId == m ensures pre[i].chapterNumber < c.chapterNumber {
      assert pre[i].mangaId == pre[jp].mangaId;
    }
    LastIsLatest(pre, c);
    OtherTitlesKept(pre, c, a);
    forall i | 0 <= i < |a'| ensures exists j :: IsLatestAt(chs, j) && chs[j] == a'[i].1 {
      if a[i].0 != m {
        assert a'[i] == a[i];
      } else {
        assert chs[|pre|] == c;
      }
    }
    forall j | 0 <= j < |chs| ensures chs[j].mangaId in Keys(a') {
      if j < |pre| {
        assert chs[j] == pre[j];
      }
    }
  }

  /** Visiting a chapter numbered no higher than the kept one changes nothing. */
  lemma LatestStepKeep(pre: seq<Chapter>, c: Chapter, a: Table<Chapter>)
    requires LatestMapOf(a, pre)
    requires Get(a, c.mangaId).Some? && c.chapterNumber <= Get(a, c.mangaId).value.chapterNumber
    ensures LatestMapOf(RecordLatest(a, c), pre + [c])
  {
    var m, chs := c.mangaId, pre + [c];
    var jp := KeptChapter(pre, a, m);
    ExtendLatest(pre, c, jp);
    assert chs[jp] == pre[jp];
    OtherTitlesKept(pre, c, a);
    forall j | 0 <= j < |chs| ensures chs[j].mangaId in Keys(a) {
      if j < |pre| {
        assert chs[j] == pre[j];
      }
    }
  }

  /** The scan keeps, for every title that has a chapter, exactly one chapter: the one `IsLatestAt` describes. */
  lemma {:induction false} LatestPerMangaIsLatest(chs: seq<Chapter>)
    ensures LatestMapOf(LatestPerManga(chs), chs)
    decreases |chs|
  {
    if chs != [] {
      var n := |chs|;
      var pre, c := chs[..n - 1], chs[n - 1];
      assert chs == pre + [c];
      LatestPerMangaIsLatest(pre);
      var a := LatestPerManga(pre);
      var existing := Get(a, c.mangaId);
      if existing.None? {
        LatestStepNew(pre, c, a);
      } else if c.chapterNumber > existing.value.chapterNumber {
        LatestStepReplace(pre, c, a);
      } else {
        LatestStepKeep(pre, c, a);
      }
    }
  }

  lemma LatestPerMangaStep(all: seq<Chapter>, i: int)
    requires 0 <= i < |all|
    ensures LatestPerManga(all[..i + 1]) == RecordLatest(LatestPerManga(all[..i]), all[i])
  {
    assert all[..i + 1][..i] == all[..i];
  }

  /** The rows of the latest-updates listing, before sorting, in map order. */
  function LatestRows(acc: Table<Chapter>, manga: Table<Manga>): (r: seq<LatestUpdate>)
    ensures |r| == |acc|
    ensures forall i :: 0 <= i < |acc| ==> r[i] == LatestUpdate(Get(manga, acc[i].0), acc[i].1)
  {
    seq(|acc|, i requires 0 <= i < |acc| => LatestUpdate(Get(manga, acc[i].0), acc[i].1))
  }

  function ByLatestCreatedDesc(e: LatestUpdate): int { -(e.latestChapter.createdAt as int) }

  function LatestMangaIdOf(e: LatestUpdate): int { e.latestChapter.mangaId }

  /**
   * The latest-updates listing over chapters `chs` (in table order) and the
   * manga table `mt`: one row per title with a chapter, holding the chapter the
   * scan keeps, newest first, cut to `limit` rows.
   */
  function LatestUpdates(chs: seq<Chapter>, mt: Table<Manga>, limit: int): (r: seq<LatestUpdate>)
    ensures |r| == SliceEnd(|LatestPerManga(chs)|, limit) && |r| <= |chs|
    ensures 0 <= limit ==> |r| <= limit
    ensures forall i, j :: 0 <= i < j < |r| ==> r[i].latestChapter.createdAt >= r[j].latestChapter.createdAt
    ensures forall i :: 0 <= i < |r| ==>
      r[i].manga == Get(mt, r[i].latestChapter.mangaId) &&
      exists j :: IsLatestAt(chs, j) && chs[j] == r[i].latestChapter
    ensures forall i, j :: 0 <= i < j < |r| ==> r[i].latestChapter.mangaId != r[j].latestChapter.mangaId
    ensures limit >= |chs| ==>
      forall j :: 0 <= j < |chs| ==> exists i :: 0 <= i < |r| && r[i].latestChapter.mangaId == chs[j].mangaId
  {
    var r := Take(SortedLatestRows(chs, mt), limit);
    SortedRowsCover(chs, mt);
    LatestUpdatesOrdered(chs, mt, limit);
    LatestUpdatesKept(chs, mt, limit);
    LatestUpdatesComplete(chs, mt, limit);
    r
  }

  lemma ScanGivesLatestUpdates(chs: seq<Chapter>, latest: Table<Chapter>, mt: Table<Manga>, limit: int)
    requires latest == LatestPerManga(chs)
    ensures Take(SortBy(LatestRows(latest, mt), ByLatestCreatedDesc), limit) == LatestUpdates(chs, mt, limit)
  {
  }

  /** The cut listing is newest first and names each title at most once. */
  lemma LatestUpdatesOrdered(chs: seq<Chapter>, mt: Table<Manga>, limit: int)
    ensures var r := Take(SortedLatestRows(chs, mt), limit);
      (forall i, j :: 0 <= i < j < |r| ==> r[i].latestChapter.createdAt >= r[j].latestChapter.createdAt) &&
      (forall i, j :: 0 <= i < j < |r| ==> r[i].latestChapter.mangaId != r[j].latestChapter.mangaId)
  {
    var sorted := SortedLatestRows(chs, mt);
    var r := Take(sorted, limit);
    SortedRowsDistinct(chs, mt);
    forall i, j | 0 <= i < j < |r|
      ensures r[i].latestChapter.createdAt >= r[j].latestChapter.createdAt
      ensures r[i].latestChapter.mangaId != r[j].latestChapter.mangaId
    {
      assert r[i] == sorted[i] && r[j] == sorted[j];
      assert ByLatestCreatedDesc(sorted[i]) <= ByLatestCreatedDesc(sorted[j]);
      assert LatestMangaIdOf(sorted[i]) != LatestMangaIdOf(sorted[j]);
    }
  }

  /** Each row of the cut listing is a kept chapter with its title's lookup. */
  lemma LatestUpdatesKept(chs: seq<Chapter>, mt: Table<Manga>, limit: int)
    ensures var r := Take(SortedLatestRows(chs, mt), limit);
      forall i :: 0 <= i < |r| ==>
        r[i].manga == Get(mt, r[i].latestChapter.mangaId) &&
        exists j :: IsLatestAt(chs, j) && chs[j] == r[i].latestChapter
  {
    var sorted := SortedLatestRows(chs, mt);
    var r := Take(sorted, limit);
    SortedRowsKept(chs, mt);
    forall i | 0 <= i < |r|
      ensures r[i].manga == Get(mt, r[i].latestChapter.mangaId)
      ensures exists j :: IsLatestAt(chs, j) && chs[j] == r[i].latestChapter
    {
      assert r[i] == sorted[i];
      var j :| IsLatestAt(chs, j) && chs[j] == sorted[i].latestChapter;
    }
  }

  /** With room for every row, every title that has a chapter appears in the listing. */
  lemma LatestUpdatesComplete(chs: seq<Chapter>, mt: Table<Manga>, limit: int)
    ensures var r := Take(SortedLatestRows(chs, mt), limit);
      limit >= |chs| ==> forall j :: 0 <= j < |chs| ==> exists i :: 0 <= i < |r| && r[i].latestChapter.mangaId == chs[j].mangaId
  {
    SortedRowsCover(chs, mt);
    if limit >= |chs| {
      assert Take(SortedLatestRows(chs, mt), limit) == SortedLatestRows(chs, mt);
    }
  }

  /**
   * Which titles survive the cut: a title left out of the listing has its kept
   * chapter no newer than any chapter listed.
   */
  lemma LatestUpdatesNewest(chs: seq<Chapter>, mt: Table<Manga>, limit: int)
    ensures var r := LatestUpdates(chs, mt, limit);
      forall j, i :: IsLatestAt(chs, j) && 0 <= i < |r| ==>
        (exists l :: 0 <= l < |r| && r[l].latestChapter == chs[j]) ||
        chs[j].createdAt <= r[i].latestChapter.createdAt
  {
    var rows := LatestRows(LatestPerManga(chs), mt);
    var r := LatestUpdates(chs, mt, limit);
    assert r == Take(SortBy(rows, ByLatestCreatedDesc), limit);
    TakeSortedIsLeast(rows, ByLatestCreatedDesc, limit);
    forall j, i | IsLatestAt(chs, j) && 0 <= i < |r|
      ensures (exists l :: 0 <= l < |r| && r[l].latestChapter == chs[j]) ||
        chs[j].createdAt <= r[i].latestChapter.createdAt
    {
      var k := KeptRow(chs, mt, j);
      if rows[k] in r {
        var l :| 0 <= l < |r| && r[l] == rows[k];
      }
    }
  }

  /** A title's kept chapter has a row of its own before sorting. */
  lemma KeptRow(chs: seq<Chapter>, mt: Table<Manga>, j: int) returns (k: int)
    requires IsLatestAt(chs, j)
    ensures 0 <= k < |LatestRows(LatestPerManga(chs), mt)|
    ensures LatestRows(LatestPerManga(chs), mt)[k].latestChapter == chs[j]
  {
    var acc := LatestPerManga(chs);
    LatestPerMangaIsLatest(chs);
    k :| 0 <= k < |acc| && Keys(acc)[k] == chs[j].mangaId;
    var j' :| IsLatestAt(chs, j') && chs[j'] == acc[k].1;
    LatestAtUnique(chs, j, j');
  }

  /** A title has one kept chapter: two positions the scan keeps for the same title coincide. */
  lemma LatestAtUnique(chs: seq<Chapter>, j1: int, j2: int)
    requires IsLatestAt(chs, j1) && IsLatestAt(chs, j2) && chs[j1].mangaId == chs[j2].mangaId
    ensures j1 == j2
  {
  }

  /** The rows of the listing, sorted newest first and not yet cut. */
  function SortedLatestRows(chs: seq<Chapter>, mt: Table<Manga>): seq<LatestUpdate> {
    SortBy(LatestRows(LatestPerManga(chs), mt), ByLatestCreatedDesc)
  }

  /** Each sorted row is a kept chapter together with its title's lookup. */
  lemma SortedRowsKept(chs: seq<Chapter>, mt: Table<Manga>)
    ensures forall i :: 0 <= i < |SortedLatestRows(chs, mt)| ==>
      SortedLatestRows(chs, mt)[i].manga == Get(mt, SortedLatestRows(chs, mt)[i].latestChapter.mangaId) &&
      exists j :: IsLatestAt(chs, j) && chs[j] == SortedLatestRows(chs, mt)[i].latestChapter
  {
    var acc := LatestPerManga(chs);
    LatestPerMangaIsLatest(chs);
    var rows := LatestRows(acc, mt);
    var kept := (row: LatestUpdate) =>
      row.manga == Get(mt, row.latestChapter.mangaId) &&
      exists j :: IsLatestAt(chs, j) && chs[j] == row.latestChapter;
    forall k | 0 <= k < |rows| ensures kept(rows[k]) {
      assert rows[k] == LatestUpdate(Get(mt, acc[k].0), acc[k].1);
    }
    SortByKeepsAll(rows, ByLatestCreatedDesc, kept);
  }

  /** No two sorted rows are about the same title. */
  lemma SortedRowsDistinct(chs: seq<Chapter>, mt: Table<Manga>)
    ensures DistinctBy(SortedLatestRows(chs, mt), LatestMangaIdOf)
  {
    var acc := LatestPerManga(chs);
    LatestPerMangaIsLatest(chs);
    var rows := LatestRows(acc, mt);
    assert DistinctBy(rows, LatestMangaIdOf);
    PermutationKeepsDistinctBy(rows, SortBy(rows, ByLatestCreatedDesc), LatestMangaIdOf);
  }

  /** Every title with a chapter has a sorted row, and there are no more rows than chapters. */
  lemma SortedRowsCover(chs: seq<Chapter>, mt: Table<Manga>)
    ensures |SortedLatestRows(chs, mt)| == |LatestPerManga(chs)| <= |chs|
    ensures forall j :: 0 <= j < |chs| ==>
      exists i :: 0 <= i < |SortedLatestRows(chs, mt)| && SortedLatestRows(chs, mt)[i].latestChapter.mangaId == chs[j].mangaId
  {
    var acc := LatestPerManga(chs);
    LatestPerMangaIsLatest(chs);
    var rows := LatestRows(acc, mt);
    var sorted := SortBy(rows, ByLatestCreatedDesc);
    forall j | 0 <= j < |chs| ensures exists i :: 0 <= i < |sorted| && sorted[i].latestChapter.mangaId == chs[j].mangaId {
      var k :| 0 <= k < |acc| && Keys(acc)[k] == chs[j].mangaId;
      assert rows[k] in multiset(sorted);
      var i :| 0 <= i < |sorted| && sorted[i] == rows[k];
    }
  }

  /** The latest-chapters listing over chapters `chs`: newest first, cut to `limit`, each with its title's lookup. */
  function LatestChapterRows(chs: seq<Chapter>, mt: Table<Manga>, limit: int): seq<ChapterWithManga> {
    var top := Take(SortBy(chs, ByChapterCreatedDesc), limit);
    seq(|top|, i requires 0 <= i < |top| => ChapterWithManga(Get(mt, top[i].mangaId), top[i]))
  }

  /** Some row of `rows` is about chapter `c`. */
  ghost predicate ListsChapter(rows: seq<ChapterWithManga>, c: Chapter) {
    exists l :: 0 <= l < |rows| && rows[l].chapter == c
  }

  lemma LatestChapterRowsOrdered(chs: seq<Chapter>, mt: Table<Manga>, limit: int)
    requires IdsIncreasing(chs, ChapterIdOf)
    ensures var r := LatestChapterRows(chs, mt, limit);
      forall i, j :: 0 <= i < j < |r| ==>
        r[i].chapter.createdAt > r[j].chapter.createdAt ||
        (r[i].chapter.createdAt == r[j].chapter.createdAt && r[i].chapter.id < r[j].chapter.id)
  {
    var sorted := SortBy(chs, ByChapterCreatedDesc);
    var r := LatestChapterRows(chs, mt, limit);
    SortByThenId(chs, ByChapterCreatedDesc, ChapterIdOf);
    forall i, j | 0 <= i < j < |r|
      ensures r[i].chapter.createdAt > r[j].chapter.createdAt ||
        (r[i].chapter.createdAt == r[j].chapter.createdAt && r[i].chapter.id < r[j].chapter.id)
    {
      assert r[i].chapter == sorted[i] && r[j].chapter == sorted[j];
    }
  }

  lemma LatestChapterRowsMembers(chs: seq<Chapter>, mt: Table<Manga>, limit: int)
    ensures var r := LatestChapterRows(chs, mt, limit);
      |r| == SliceEnd(|chs|, limit) &&
      forall i :: 0 <= i < |r| ==> r[i].chapter in chs && r[i].manga == Get(mt, r[i].chapter.mangaId)
  {
    var sorted := SortBy(chs, ByChapterCreatedDesc);
    var r := LatestChapterRows(chs, mt, limit);
    forall i | 0 <= i < |r| ensures r[i].chapter in chs {
      assert r[i].chapter == sorted[i];
      assert sorted[i] in multiset(chs);
    }
  }

  lemma LatestChapterRowsNewest(chs: seq<Chapter>, mt: Table<Manga>, limit: int)
    ensures var r := LatestChapterRows(chs, mt, limit);
      forall k, i :: 0 <= k < |chs| && 0 <= i < |r| ==>
        ListsChapter(r, chs[k]) || chs[k].createdAt <= r[i].chapter.createdAt
  {
    var top := Take(SortBy(chs, ByChapterCreatedDesc), limit);
    var r := LatestChapterRows(chs, mt, limit);
    TakeSortedIsLeast(chs, ByChapterCreatedDesc, limit);
    forall k, i | 0 <= k < |chs| && 0 <= i < |r|
      ensures ListsChapter(r, chs[k]) || chs[k].createdAt <= r[i].chapter.createdAt
    {
      assert r[i].chapter == top[i];
      if chs[k] in top {
        var l :| 0 <= l < |top| && top[l] == chs[k];
        assert r[l].chapter == chs[k];
      }
    }
  }

  /** A store's state: the six maps, the six id counters and the clock that stamps creations. */
  class MemStorage {
    var users: Table<User>
    var genres: Table<Genre>
    var categories: Table<Category>
    var manga: Table<Manga>
    var chapters: Table<Chapter>
    var comments: Table<Comment>
    var userId: int
    var genreId: int
    var categoryId: int
    var mangaId: int
    var chapterId: int
    var commentId: int
    /** The last time handed out as a creation stamp. */
    var clock: nat

    /**
     * Every map is keyed by ids its counter handed out, in increasing order,
     * each record carries its key as id, and no stamp lies in the future.
     */
    ghost predicate Valid()
      reads this
    {
      UsersValid() && GenresValid() && CategoriesValid() && MangaValid() && ChaptersValid() && CommentsValid()
    }

    ghost predicate UsersValid()
      reads this`users, this`userId
    {
      1 <= userId && WellKeyed(users, userId, UserIdOf)
    }

    ghost predicate GenresValid()
      reads this`genres, this`genreId
    {
      1 <= genreId && WellKeyed(genres, genreId, GenreIdOf)
    }

    ghost predicate CategoriesValid()
      reads this`categories, this`categoryId
    {
      1 <= categoryId && WellKeyed(categories, categoryId, CategoryIdOf)
    }

    ghost predicate MangaValid()
      reads this`manga, this`mangaId, this`clock
    {
      1 <= mangaId && WellKeyed(manga, mangaId, MangaIdOf) && StampedBy(manga, MangaCreated, clock)
    }

    ghost predicate ChaptersValid()
      reads this`chapters, this`chapterId, this`clock
    {
      1 <= chapterId && WellKeyed(chapters, chapterId, ChapterIdOf) && StampedBy(chapters, ChapterCreated, clock)
    }

    ghost predicate CommentsValid()
      reads this`comments, this`commentId, this`clock
    {
      1 <= commentId && WellKeyed(comments, commentId, CommentIdOf) && StampedBy(comments, CommentCreated, clock)
    }

    /** A fresh store holds the admin account, the seven seed genres and the four seed categories. */
    constructor ()
      ensures Valid()
      ensures users == [(1, NewUser(AdminSeed, 1))] && userId == 2
      ensures |genres| == |SeedGenres| && genreId == |SeedGenres| + 1
      ensures forall i :: 0 <= i < |SeedGenres| ==> genres[i] == (i + 1, Genre(i + 1, SeedGenres[i]))
      ensures |categories| == |SeedCategories| && categoryId == |SeedCategories| + 1
      ensures forall i :: 0 <= i < |SeedCategories| ==> categories[i] == (i + 1, Category(i + 1, SeedCategories[i]))
      ensures manga == [] && chapters == [] && comments == []
      ensures mangaId == 1 && chapterId == 1 && commentId == 1 && clock == 0
    {
      users, genres, categories, manga, chapters, comments := [], [], [], [], [], [];
      userId, genreId, categoryId, mangaId, chapterId, commentId := 1, 1, 1, 1, 1, 1;
      clock := 0;
      new;
      InitializeData();
    }

    /** Seeds an empty store through the ordinary create operations. */
    method InitializeData()
      requires Valid()
      requires users == [] && genres == [] && categories == []
      requires userId == 1 && genreId == 1 && categoryId == 1
      modifies this`users, this`userId, this`genres, this`genreId, this`categories, this`categoryId
      ensures Valid()
      ensures users == [(1, NewUser(AdminSeed, 1))] && userId == 2
      ensures |genres| == |SeedGenres| && genreId == |SeedGenres| + 1
      ensures forall i :: 0 <= i < |SeedGenres| ==> genres[i] == (i + 1, Genre(i + 1, SeedGenres[i]))
      ensures |categories| == |SeedCategories| && categoryId == |SeedCategories| + 1
      ensures forall i :: 0 <= i < |SeedCategories| ==> categories[i] == (i + 1, Category(i + 1, SeedCategories[i]))
      ensures manga == old(manga) && chapters == old(chapters) && comments == old(comments)
      ensures mangaId == old(mangaId) && chapterId == old(chapterId) && commentId == old(commentId) && clock == old(clock)
    {
      var admin := CreateUser(AdminSeed);
      SeedGenreTable(SeedGenres);
      SeedCategoryTable(SeedCategories);
    }

    /** Creates one genre per name, in order, in an empty genre map. */
    method SeedGenreTable(names: seq<string>)
      requires Valid()
      requires genres == [] && genreId == 1
      modifies this`genres, this`genreId
      ensures Valid()
      ensures |genres| == |names| && genreId == |names| + 1
      ensures forall k :: 0 <= k < |names| ==> genres[k] == (k + 1, Genre(k + 1, names[k]))
    {
      var i := 0;
      while i < |names|
        invariant 0 <= i <= |names|
        invariant Valid()
        invariant |genres| == i && genreId == i + 1
        invariant forall k :: 0 <= k < i ==> genres[k] == (k + 1, Genre(k + 1, names[k]))
      {
        ghost var before := genres;
        var g := CreateGenre(names[i]);
        forall k | 0 <= k < i + 1 ensures genres[k] == (k + 1, Genre(k + 1, names[k])) {
          if k < i {
            assert genres[k] == before[k];
          }
        }
        i := i + 1;
      }
    }

    /** Creates one category per name, in order, in an empty category map. */
    method SeedCategoryTable(names: seq<string>)
      requires Valid()
      requires categories == [] && categoryId == 1
      modifies this`categories, this`categoryId
      ensures Valid()
      ensures |categories| == |names| && categoryId == |names| + 1
      ensures forall k :: 0 <= k < |names| ==> categories[k] == (k + 1, Category(k + 1, names[k]))
    {
      var i := 0;
      while i < |names|
        invariant 0 <= i <= |names|
        invariant Valid()
        invariant |categories| == i && categoryId == i + 1
        invariant forall k :: 0 <= k < i ==> categories[k] == (k + 1, Category(k + 1, names[k]))
      {
        ghost var before := categories;
        var c := CreateCategory(names[i]);
        forall k | 0 <= k < i + 1 ensures categories[k] == (k + 1, Category(k + 1, names[k])) {
          if k < i {
            assert categories[k] == before[k];
          }
        }
        i := i + 1;
      }
    }

    // ---------------------------------------------------------------- users

    function GetUser(id: int): (r: Option<User>)
      reads this
      requires Valid()
      ensures r.None? <==> id !in Keys(users)
      ensures r.Some? ==> r.value.id == id && r.value in Values(users)
    {
      var r := Get(users, id);
      assert r.Some? ==> (id, r.value) in users;
      r
    }

    /** No user created before the `i`-th is named `username`. */
    ghost predicate FirstUserNamed(i: int, username: string)
      reads this
    {
      forall j :: 0 <= j < i && j < |users| ==> users[j].1.username != username
    }

    /** No user created before the `i`-th is linked to `providerId`. */
    ghost predicate FirstUserLinked(i: int, providerId: string)
      reads this
    {
      forall j :: 0 <= j < i && j < |users| ==> users[j].1.providerId != Some(providerId)
    }

    /** The first user, in creation order, with that exact username. */
    function GetUserByUsername(username: string): (r: Option<User>)
      reads this
      ensures r.None? <==> forall i :: 0 <= i < |users| ==> users[i].1.username != username
      ensures r.Some? ==> r.value.username == username
      ensures r.Some? ==> exists i :: 0 <= i < |users| && users[i].1 == r.value && FirstUserNamed(i, username)
    {
      Find(Values(users), (u: User) => u.username == username)
    }

    /** The first user, in creation order, whose provider id is present and equal to `providerId`. */
    function GetUserByProviderId(providerId: string): (r: Option<User>)
      reads this
      ensures r.None? <==> forall i :: 0 <= i < |users| ==> users[i].1.providerId != Some(providerId)
      ensures r.Some? ==> r.value.providerId == Some(providerId)
      ensures r.Some? ==> exists i :: 0 <= i < |users| && users[i].1 == r.value && FirstUserLinked(i, providerId)
    {
      Find(Values(users), (u: User) => u.providerId == Some(providerId))
    }

    /** Stores a new user under the next user id; email, avatar and provider id default to null, provider to "local". */
    method CreateUser(insert: InsertUser) returns (u: User)
      requires Valid()
      modifies this`users, this`userId
      ensures Valid()
      ensures u == NewUser(insert, old(userId)) && userId == old(userId) + 1
      ensures users == old(users) + [(u.id, u)]
    {
      var id := userId;
      userId := userId + 1;
      u := NewUser(insert, id);
      SetFreshKey(users, id, UserIdOf, u);
      users := Set(users, id, u);
    }

    // ------------------------------------------------------ genres, categories

    function GetGenres(): (r: seq<Genre>)
      reads this
      requires Valid()
      ensures |r| == |genres| && forall i :: 0 <= i < |r| ==> r[i] == genres[i].1 && r[i].id == genres[i].0
    {
      Values(genres)
    }

    function GetGenre(id: int): (r: Option<Genre>)
      reads this
      requires Valid()
      ensures r.None? <==> id !in Keys(genres)
      ensures r.Some? ==> r.value.id == id && r.value in Values(genres)
    {
      var r := Get(genres, id);
      assert r.Some? ==> (id, r.value) in genres;
      r
    }

    method CreateGenre(name: string) returns (g: Genre)
      requires Valid()
      modifies this`genres, this`genreId
      ensures Valid()
      ensures g == Genre(old(genreId), name) && genreId == old(genreId) + 1
      ensures genres == old(genres) + [(g.id, g)]
    {
      var id := genreId;
      genreId := genreId + 1;
      g := Genre(id, name);
      SetFreshKey(genres, id, GenreIdOf, g);
      genres := Set(genres, id, g);
    }

    function GetCategories(): (r: seq<Category>)
      reads this
      requires Valid()
      ensures |r| == |categories| && forall i :: 0 <= i < |r| ==> r[i] == categories[i].1 && r[i].id == categories[i].0
    {
      Values(categories)
    }

    function GetCategory(id: int): (r: Option<Category>)
      reads this
      requires Valid()
      ensures r.None? <==> id !in Keys(categories)
      ensures r.Some? ==> r.value.id == id && r.value in Values(categories)
    {
      var r := Get(categories, id);
      assert r.Some? ==> (id, r.value) in categories;
      r
    }

    method CreateCategory(name: string) returns (c: Category)
      requires Valid()
      modifies this`categories, this`categoryId
      ensures Valid()
      ensures c == Category(old(categoryId), name) && categoryId == old(categoryId) + 1
      ensures categories == old(categories) + [(c.id, c)]
    {
      var id := categoryId;
      categoryId := categoryId + 1;
      c := Category(id, name);
      SetFreshKey(categories, id, CategoryIdOf, c);
      categories := Set(categories, id, c);
    }

    // ---------------------------------------------------------------- manga

    /** Every title, in creation order. */
    function GetAllManga(): (r: seq<Manga>)
      reads this
      requires Valid()
      ensures |r| == |manga| && forall i :: 0 <= i < |r| ==> r[i] == manga[i].1 && r[i].id == manga[i].0
      ensures IdsIncreasing(r, MangaIdOf)
    {
      WellKeyedIdsIncreasing(manga, mangaId, MangaIdOf);
      Values(manga)
    }

    /**
     * The featured titles: the listing after a random reordering, cut to
     * `limit`. The reordering is the parameter `shuffled`, any rearrangement of
     * the listing.
     */
    function GetFeaturedManga(shuffled: seq<Manga>, limit: int): (r: seq<Manga>)
      reads this
      requires Valid()
      requires multiset(shuffled) == multiset(Values(manga))
      ensures |r| == SliceEnd(|manga|, limit)
      ensures forall i :: 0 <= i < |r| ==> r[i] in Values(manga)
      ensures DistinctBy(r, MangaIdOf)
    {
      WellKeyedIdsIncreasing(manga, mangaId, MangaIdOf);
      PermutationKeepsDistinctBy(Values(manga), shuffled, MangaIdOf);
      var r := Take(shuffled, limit);
      assert |shuffled| == |multiset(shuffled)| == |Values(manga)|;
      assert forall i :: 0 <= i < |r| ==> r[i] == shuffled[i] && shuffled[i] in multiset(shuffled);
      r
    }

    /** The trending titles: the first `limit` titles in creation order; the rating plays no part. */
    function GetTrendingManga(limit: int): (r: seq<Manga>)
      reads this
      ensures |r| == SliceEnd(|manga|, limit)
      ensures forall i :: 0 <= i < |r| ==> r[i] == manga[i].1
    {
      Take(Values(manga), limit)
    }

    /** The latest-updates listing, built by one pass over the chapters in creation order. */
    method GetLatestUpdatedManga(limit: int) returns (r: seq<LatestUpdate>)
      ensures r == LatestUpdates(Values(chapters), manga, limit)
    {
      var all := Values(chapters);
      var latest: Table<Chapter> := [];
      var i := 0;
      while i < |all|
        invariant 0 <= i <= |all|
        invariant latest == LatestPerManga(all[..i])
      {
        var c := all[i];
        LatestPerMangaStep(all, i);
        // keep `c` when its title has no entry yet or it is numbered higher
        latest := RecordLatest(latest, c);
        i := i + 1;
      }
      assert all[..|all|] == all;
      ScanGivesLatestUpdates(all, latest, manga, limit);
      r := Take(SortBy(LatestRows(latest, manga), ByLatestCreatedDesc), limit);
    }

    function GetMangaById(id: int): (r: Option<Manga>)
      reads this
      requires Valid()
      ensures r.None? <==> id !in Keys(manga)
      ensures r.Some? ==> r.value.id == id && r.value in Values(manga)
    {
      var r := Get(manga, id);
      assert r.Some? ==> (id, r.value) in manga;
      r
    }

    /** A comment with its author's username, or "Unknown User" when there is none, and avatar. */
    function ViewComment(c: Comment): (v: CommentView)
      reads this
      ensures v.comment == c && v.username != ""
      ensures Get(users, c.userId).None? ==> v.username == "Unknown User" && v.avatarUrl.None?
      ensures Get(users, c.userId).Some? ==> v.avatarUrl == Get(users, c.userId).value.avatarUrl
      ensures Get(users, c.userId).Some? && Get(users, c.userId).value.username != "" ==>
        v.username == Get(users, c.userId).value.username
    {
      var user := Get(users, c.userId);
      CommentView(c,
        if user.Some? && user.value.username != "" then user.value.username else "Unknown User",
        if user.Some? then user.value.avatarUrl else None)
    }

    /**
     * A title with its relations: a lookup per genre and category id (absent
     * ones stay absent), its chapters and its enriched comments.
     */
    function GetMangaWithRelations(id: int): (r: Option<MangaWithRelations>)
      reads this
      requires Valid()
      ensures r.None? <==> id !in Keys(manga)
      ensures r.Some? ==> Get(manga, id) == Some(r.value.manga) && r.value.manga.id == id
      ensures r.Some? ==> |r.value.genres| == |r.value.manga.genreIds|
      ensures r.Some? ==> forall i :: 0 <= i < |r.value.genres| ==>
                            r.value.genres[i] == Get(genres, r.value.manga.genreIds[i])
      ensures r.Some? ==> |r.value.categories| == |r.value.manga.categoryIds|
      ensures r.Some? ==> forall i :: 0 <= i < |r.value.categories| ==>
                            r.value.categories[i] == Get(categories, r.value.manga.categoryIds[i])
      ensures r.Some? ==> r.value.chapters == GetChapters(id)
      ensures r.Some? ==> |r.value.comments| == |GetCommentsByMangaId(id)|
      ensures r.Some? ==> forall i :: 0 <= i < |r.value.comments| ==>
                            r.value.comments[i] == ViewComment(GetCommentsByMangaId(id)[i]) && r.value.comments[i].username != ""
    {
      var m := Get(manga, id);
      if m.None? then None
      else
        assert (id, m.value) in manga;
        Some(MangaWithRelations(
          m.value,
          GetAll(genres, m.value.genreIds),
          GetAll(categories, m.value.categoryIds),
          GetChapters(id),
          ViewComments(GetCommentsByMangaId(id))))
    }

    /** Each comment with its author's username and avatar, in order. */
    function ViewComments(cs: seq<Comment>): (r: seq<CommentView>)
      reads this
      ensures |r| == |cs|
      ensures forall i :: 0 <= i < |cs| ==> r[i] == ViewComment(cs[i])
      ensures forall i :: 0 <= i < |cs| ==> r[i].comment == cs[i] && r[i].username != ""
      ensures forall i :: 0 <= i < |cs| && Get(users, cs[i].userId).None? ==>
                r[i].username == "Unknown User" && r[i].avatarUrl.None?
    {
      seq(|cs|, i requires 0 <= i < |cs| reads this => ViewComment(cs[i]))
    }

    /** The titles tagged with genre `genreId`, in creation order. */
    function GetMangaByGenre(genreId: int): (r: seq<Manga>)
      reads this
      ensures forall i :: 0 <= i < |r| ==> r[i] in Values(manga) && genreId in r[i].genreIds
      ensures forall i :: 0 <= i < |manga| && genreId in manga[i].1.genreIds ==> manga[i].1 in r
      ensures IsSubsequence(r, Values(manga))
    {
      Filter(Values(manga), (m: Manga) => genreId in m.genreIds)
    }

    /** The titles in category `categoryId`, in creation order. */
    function GetMangaByCategory(categoryId: int): (r: seq<Manga>)
      reads this
      ensures forall i :: 0 <= i < |r| ==> r[i] in Values(manga) && categoryId in r[i].categoryIds
      ensures forall i :: 0 <= i < |manga| && categoryId in manga[i].1.categoryIds ==> manga[i].1 in r
      ensures IsSubsequence(r, Values(manga))
    {
      Filter(Values(manga), (m: Manga) => categoryId in m.categoryIds)
    }

    /** The titles whose title, description or author contains the query, ignoring ASCII case, in creation order. */
    function SearchManga(query: string): (r: seq<Manga>)
      reads this
      ensures forall i :: 0 <= i < |r| ==> r[i] in Values(manga) && MatchesQuery(r[i], query)
      ensures forall i :: 0 <= i < |manga| && MatchesQuery(manga[i].1, query) ==> manga[i].1 in r
      ensures IsSubsequence(r, Values(manga))
    {
      Filter(Values(manga), (m: Manga) => MatchesQuery(m, query))
    }

    /** The case of the query does not matter. */
    lemma SearchIgnoresQueryCase(query: string)
      ensures SearchManga(Lower(query)) == SearchManga(query)
    {
      LowerIsIdempotent(query);
      FilterCongruent(Values(manga), (m: Manga) => MatchesQuery(m, Lower(query)), (m: Manga) => MatchesQuery(m, query));
    }

    /** The empty query matches every title. */
    lemma SearchEmptyMatchesAll()
      ensures SearchManga("") == Values(manga)
    {
      forall i | 0 <= i < |Values(manga)| ensures MatchesQuery(Values(manga)[i], "") {
        assert Lower("") == "";
        ContainsEmpty(Lower(Values(manga)[i].title));
      }
      FilterAll(Values(manga), (m: Manga) => MatchesQuery(m, ""));
    }

    /** Stores a new title under the next id, stamped `now`. */
    method CreateManga(insert: InsertManga, now: nat) returns (m: Manga)
      requires Valid() && clock <= now
      modifies this`manga, this`mangaId, this`clock
      ensures Valid()
      ensures m == NewManga(insert, old(mangaId), now) && mangaId == old(mangaId) + 1 && clock == now
      ensures manga == old(manga) + [(m.id, m)]
    {
      var id := mangaId;
      mangaId := mangaId + 1;
      m := NewManga(insert, id, now);
      SetFreshKey(manga, id, MangaIdOf, m);
      StampedLater(manga, MangaCreated, clock, now);
      SetKeepsStamped(manga, MangaCreated, now, id, m);
      StampedLater(chapters, ChapterCreated, clock, now);
      StampedLater(comments, CommentCreated, clock, now);
      clock := now;
      manga := Set(manga, id, m);
    }

    /** Merges `patch` into the title `id`, in place; absent titles are reported and nothing changes. */
    method UpdateManga(id: int, patch: MangaPatch) returns (r: Option<Manga>)
      requires Valid()
      modifies this`manga
      ensures Valid()
      ensures r.None? <==> id !in Keys(old(manga))
      ensures r.None? ==> manga == old(manga)
      ensures r.Some? ==> Get(old(manga), id).Some? && r.value == MergeManga(Get(old(manga), id).value, patch)
      ensures r.Some? ==> manga == Set(old(manga), id, r.value)
      ensures Keys(manga) == Keys(old(manga))
      ensures forall k :: Get(manga, k) == if k == id && r.Some? then r else Get(old(manga), k)
    {
      var existing := Get(manga, id);
      if existing.None? {
        return None;
      }
      var updated := MergeManga(existing.value, patch);
      assert (id, existing.value) in manga;
      SetExistingKey(manga, mangaId, MangaIdOf, id, updated);
      SetKeepsStamped(manga, MangaCreated, clock, id, updated);
      forall k ensures Get(Set(manga, id, updated), k) == if k == id then Some(updated) else Get(manga, k) {
        GetAfterSet(manga, id, updated, k);
      }
      manga := Set(manga, id, updated);
      r := Some(updated);
    }

    /**
     * Deletes the chapters of title `id`, one by one, then the title itself;
     * reports whether the title existed.
     */
    method DeleteManga(id: int) returns (existed: bool)
      requires Valid()
      modifies this`manga, this`chapters
      ensures Valid()
      ensures existed <==> id in Keys(old(manga))
      ensures manga == Delete(old(manga), id)
      ensures forall k :: Get(manga, k) == if k == id then None else Get(old(manga), k)
      ensures chapters == ChaptersNotOf(old(chapters), id)
    {
      var doomed := ChapterIdsOf(chapters, id);
      ghost var before := chapters;
      var i := 0;
      while i < |doomed|
        invariant 0 <= i <= |doomed|
        invariant chapters == CascadeAfter(before, doomed, i)
        modifies this`chapters
      {
        assert CascadeAfter(before, doomed, i + 1) == Delete(CascadeAfter(before, doomed, i), doomed[i]);
        chapters := Delete(chapters, doomed[i]);
        i := i + 1;
      }
      CascadeResult(before, chapterId, clock, id);
      existed := id in Keys(manga);
      RemoveKeepsWellKeyed(manga, mangaId, MangaIdOf, {id});
      RemoveKeepsStamped(manga, MangaCreated, clock, {id});
      GetAfterDelete(manga, id);
      manga := Delete(manga, id);
    }

    // ------------------------------------------------------------- chapters

    /** The chapters of title `mangaId`, highest number first; equal numbers keep creation order. */
    function GetChapters(mangaId: int): (r: seq<Chapter>)
      reads this
      requires Valid()
      ensures forall i :: 0 <= i < |r| ==> r[i] in Values(chapters) && r[i].mangaId == mangaId
      ensures forall i :: 0 <= i < |chapters| && chapters[i].1.mangaId == mangaId ==> chapters[i].1 in r
      ensures forall i, j :: 0 <= i < j < |r| ==>
        r[i].chapterNumber > r[j].chapterNumber || (r[i].chapterNumber == r[j].chapterNumber && r[i].id < r[j].id)
    {
      var all := Values(chapters);
      var p := (c: Chapter) => c.mangaId == mangaId;
      var mine := Filter(all, p);
      WellKeyedIdsIncreasing(chapters, chapterId, ChapterIdOf);
      SubsequenceKeepsIdsIncreasing(mine, all, ChapterIdOf);
      SortByThenId(mine, ByChapterNumberDesc, ChapterIdOf);
      SortedFilterMembers(all, p, ByChapterNumberDesc);
      SortBy(mine, ByChapterNumberDesc)
    }

    function GetChapterById(id: int): (r: Option<Chapter>)
      reads this
      requires Valid()
      ensures r.None? <==> id !in Keys(chapters)
      ensures r.Some? ==> r.value.id == id && r.value in Values(chapters)
    {
      var r := Get(chapters, id);
      assert r.Some? ==> (id, r.value) in chapters;
      r
    }

    /**
     * The `limit` newest chapters with their titles, newest first; equal stamps
     * keep creation order, and no chapter left out is newer than one listed.
     */
    function GetLatestChapters(limit: int): (r: seq<ChapterWithManga>)
      reads this
      requires Valid()
      ensures |r| == SliceEnd(|chapters|, limit)
      ensures forall i :: 0 <= i < |r| ==>
        r[i].chapter in Values(chapters) && r[i].manga == Get(manga, r[i].chapter.mangaId)
      ensures forall i, j :: 0 <= i < j < |r| ==>
        r[i].chapter.createdAt > r[j].chapter.createdAt ||
        (r[i].chapter.createdAt == r[j].chapter.createdAt && r[i].chapter.id < r[j].chapter.id)
      ensures forall k, i :: 0 <= k < |chapters| && 0 <= i < |r| ==>
        ListsChapter(r, chapters[k].1) || chapters[k].1.createdAt <= r[i].chapter.createdAt
    {
      var all := Values(chapters);
      WellKeyedIdsIncreasing(chapters, chapterId, ChapterIdOf);
      LatestChapterRowsOrdered(all, manga, limit);
      LatestChapterRowsMembers(all, manga, limit);
      LatestChapterRowsNewest(all, manga, limit);
      LatestChapterRows(all, manga, limit)
    }

    /** Stores a new chapter under the next id, stamped `now`; the title is not checked here. */
    method CreateChapter(insert: InsertChapter, now: nat) returns (c: Chapter)
      requires Valid() && clock <= now
      modifies this`chapters, this`chapterId, this`clock
      ensures Valid()
      ensures c == NewChapter(insert, old(chapterId), now) && chapterId == old(chapterId) + 1 && clock == now
      ensures chapters == old(chapters) + [(c.id, c)]
    {
      var id := chapterId;
      chapterId := chapterId + 1;
      c := NewChapter(insert, id, now);
      SetFreshKey(chapters, id, ChapterIdOf, c);
      StampedLater(chapters, ChapterCreated, clock, now);
      SetKeepsStamped(chapters, ChapterCreated, now, id, c);
      StampedLater(manga, MangaCreated, clock, now);
      StampedLater(comments, CommentCreated, clock, now);
      clock := now;
      chapters := Set(chapters, id, c);
    }

    /** Merges `patch` into chapter `id`, in place, replacing its content; absent chapters are reported. */
    method UpdateChapter(id: int, patch: ChapterPatch) returns (r: Option<Chapter>)
      requires Valid()
      modifies this`chapters
      ensures Valid()
      ensures r.None? <==> id !in Keys(old(chapters))
      ensures r.None? ==> chapters == old(chapters)
      ensures r.Some? ==> Get(old(chapters), id).Some? && r.value == MergeChapter(Get(old(chapters), id).value, patch)
      ensures r.Some? ==> chapters == Set(old(chapters), id, r.value)
      ensures Keys(chapters) == Keys(old(chapters))
      ensures forall k :: Get(chapters, k) == if k == id && r.Some? then r else Get(old(chapters), k)
    {
      var existing := Get(chapters, id);
      if existing.None? {
        return None;
      }
      var updated := MergeChapter(existing.value, patch);
      assert (id, existing.value) in chapters;
      SetExistingKey(chapters, chapterId, ChapterIdOf, id, updated);
      SetKeepsStamped(chapters, ChapterCreated, clock, id, updated);
      forall k ensures Get(Set(chapters, id, updated), k) == if k == id then Some(updated) else Get(chapters, k) {
        GetAfterSet(chapters, id, updated, k);
      }
      chapters := Set(chapters, id, updated);
      r := Some(updated);
    }

    /** Deletes chapter `id`; reports whether it existed. */
    method DeleteChapter(id: int) returns (existed: bool)
      requires Valid()
      modifies this`chapters
      ensures Valid()
      ensures existed <==> id in Keys(old(chapters))
      ensures chapters == Delete(old(chapters), id)
      ensures forall k :: Get(chapters, k) == if k == id then None else Get(old(chapters), k)
    {
      existed := id in Keys(chapters);
      RemoveKeepsWellKeyed(chapters, chapterId, ChapterIdOf, {id});
      RemoveKeepsStamped(chapters, ChapterCreated, clock, {id});
      GetAfterDelete(chapters, id);
      chapters := Delete(chapters, id);
    }

    // ------------------------------------------------------------- comments

    /** The comments on title `mangaId`, newest first; equal stamps keep creation order. */
    function GetCommentsByMangaId(mangaId: int): (r: seq<Comment>)
      reads this
      requires Valid()
      ensures forall i :: 0 <= i < |r| ==> r[i] in Values(comments) && r[i].mangaId == mangaId
      ensures forall i :: 0 <= i < |comments| && comments[i].1.mangaId == mangaId ==> comments[i].1 in r
      ensures forall i, j :: 0 <= i < j < |r| ==>
        r[i].createdAt > r[j].createdAt || (r[i].createdAt == r[j].createdAt && r[i].id < r[j].id)
    {
      var all := Values(comments);
      var p := (c: Comment) => c.mangaId == mangaId;
      var mine := Filter(all, p);
      WellKeyedIdsIncreasing(comments, commentId, CommentIdOf);
      SubsequenceKeepsIdsIncreasing(mine, all, CommentIdOf);
      SortByThenId(mine, ByCommentCreatedDesc, CommentIdOf);
      SortedFilterMembers(all, p, ByCommentCreatedDesc);
      SortBy(mine, ByCommentCreatedDesc)
    }

    /** Stores a new comment under the next id, stamped `now`. */
    method CreateComment(insert: InsertComment, now: nat) returns (c: Comment)
      requires Valid() && clock <= now
      modifies this`comments, this`commentId, this`clock
      ensures Valid()
      ensures c == NewComment(insert, old(commentId), now) && commentId == old(commentId) + 1 && clock == now
      ensures comments == old(comments) + [(c.id, c)]
    {
      var id := commentId;
      commentId := commentId + 1;
      c := NewComment(insert, id, now);
      SetFreshKey(comments, id, CommentIdOf, c);
      StampedLater(comments, CommentCreated, clock, now);
      SetKeepsStamped(comments, CommentCreated, now, id, c);
      StampedLater(manga, MangaCreated, clock, now);
      StampedLater(chapters, ChapterCreated, clock, now);
      clock := now;
      comments := Set(comments, id, c);
    }

    /** Deletes comment `id`; reports whether it existed. */
    method DeleteComment(id: int) returns (existed: bool)
      requires Valid()
      modifies this`comments
      ensures Valid()
      ensures existed <==> id in Keys(old(comments))
      ensures comments == Delete(old(comments), id)
      ensures forall k :: Get(comments, k) == if k == id then None else Get(old(comments), k)
    {
      existed := id in Keys(comments);
      RemoveKeepsWellKeyed(comments, commentId, CommentIdOf, {id});
      RemoveKeepsStamped(comments, CommentCreated, clock, {id});
      GetAfterDelete(comments, id);
      comments := Delete(comments, id);
    }
  }
}
