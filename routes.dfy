/**
 * The HTTP layer in front of the store: the two session guards, login,
 * registration, logout, and the handlers that check a request before they
 * read or change the store. Each handler returns the status code and body it
 * would send.
 */
module Routes {
  import opened Wrappers
  import opened Tables
  import opened Schema
  import opened Storage

  /** What login and registration record in the session. */
  datatype SessionUser = SessionUser(id: int, username: string, isAdmin: bool)

  /** A response: a status code with a JSON body, or a status code with an error message. */
  datatype Reply<T> = Ok(code: int, body: T) | Error(code: int, message: string)

  /** A guard's refusal, sent in place of the handler's response. */
  datatype Rejection = Rejection(code: int, message: string)

  /** The body of a login request; an absent field is `None`. */
  datatype Credentials = Credentials(username: Option<string>, password: Option<string>)

  const AdminOnly := "Access denied. Admin privileges required."
  const LoginRequired := "Authentication required"
  const MissingCredentials := "Username and password are required"
  const BadCredentials := "Invalid credentials"
  const UsernameTaken := "Username already exists"
  const NotAuthenticated := "Not authenticated"
  const BadMangaId := "Invalid manga ID"
  const BadChapterId := "Invalid chapter ID"
  const MangaNotFound := "Manga not found"
  const ChapterNotFound := "Chapter not found"
  const QueryRequired := "Search query is required"

  /** A browser session; it starts without a user. */
  class Session {
    var user: Option<SessionUser>

    constructor ()
      ensures user == None
    {
      user := None;
    }
  }

  // ------------------------------------------------------------- guards

  /** The admin guard: refuses with 403 unless the session holds an administrator. */
  function RequireAdmin(user: Option<SessionUser>): (r: Option<Rejection>)
    ensures r.None? <==> user.Some? && user.value.isAdmin
    ensures r.Some? ==> r.value.code == 403
  {
    if user.None? || !user.value.isAdmin then Some(Rejection(403, AdminOnly)) else None
  }

  /** The authentication guard: refuses with 401 unless the session holds a user. */
  function RequireAuth(user: Option<SessionUser>): (r: Option<Rejection>)
    ensures r.None? <==> user.Some?
    ensures r.Some? ==> r.value.code == 401
  {
    if user.None? then Some(Rejection(401, LoginRequired)) else None
  }

  /** Whoever passes the admin guard passes the authentication guard; the converse fails. */
  lemma AdminGuardIsStricter(user: Option<SessionUser>)
    ensures RequireAdmin(user).None? ==> RequireAuth(user).None?
    ensures RequireAuth(user).Some? ==> RequireAdmin(user).Some?
    ensures RequireAuth(Some(SessionUser(1, "reader", false))).None?
    ensures RequireAdmin(Some(SessionUser(1, "reader", false))).Some?
  {
  }

  // ------------------------------------------------------ store invariant

  /** No two accounts share a username, which registration checks before creating one. */
  ghost predicate UniqueUsernames(users: Table<User>) {
    forall i, j :: 0 <= i < j < |users| ==> users[i].1.username != users[j].1.username
  }

  /** Every chapter belongs to a title the store holds. */
  ghost predicate ChaptersOwned(chapters: Table<Chapter>, manga: Table<Manga>) {
    forall i :: 0 <= i < |chapters| ==> chapters[i].1.mangaId in Keys(manga)
  }

  /** What the handlers keep: the store's own invariant and the two checks above. */
  ghost predicate Consistent(s: MemStorage)
    reads s
  {
    s.Valid() && UniqueUsernames(s.users) && ChaptersOwned(s.chapters, s.manga)
  }

  /** A new store holds one account and no chapters. */
  method OpenStore() returns (s: MemStorage)
    ensures fresh(s) && Consistent(s)
  {
    s := new MemStorage();
  }

  lemma OwnedAfterNewTitle(chapters: Table<Chapter>, manga: Table<Manga>, entry: (int, Manga))
    requires ChaptersOwned(chapters, manga)
    ensures ChaptersOwned(chapters, manga + [entry])
  {
    forall i | 0 <= i < |chapters| ensures chapters[i].1.mangaId in Keys(manga + [entry]) {
      var j :| 0 <= j < |manga| && Keys(manga)[j] == chapters[i].1.mangaId;
      assert Keys(manga + [entry])[j] == (manga + [entry])[j].0 == manga[j].0;
    }
  }

  lemma OwnedAfterTitleUpdate(chapters: Table<Chapter>, manga: Table<Manga>, id: int, m: Manga)
    requires ChaptersOwned(chapters, manga) && id in Keys(manga)
    ensures ChaptersOwned(chapters, Set(manga, id, m))
  {
  }

  lemma OwnedAfterNewChapter(chapters: Table<Chapter>, manga: Table<Manga>, entry: (int, Chapter))
    requires ChaptersOwned(chapters, manga) && entry.1.mangaId in Keys(manga)
    ensures ChaptersOwned(chapters + [entry], manga)
  {
    forall i | 0 <= i < |chapters| + 1 ensures (chapters + [entry])[i].1.mangaId in Keys(manga) {
      if i < |chapters| {
        assert (chapters + [entry])[i] == chapters[i];
      }
    }
  }

  /** Moving a chapter to a title that exists keeps every chapter owned. */
  lemma {:induction false} OwnedAfterChapterUpdate(chapters: Table<Chapter>, manga: Table<Manga>, id: int, c: Chapter)
    requires ChaptersOwned(chapters, manga) && id in Keys(chapters) && c.mangaId in Keys(manga)
    ensures ChaptersOwned(Set(chapters, id, c), manga)
  {
    var r := Set(chapters, id, c);
    assert r == Replace(chapters, id, c);
    forall i | 0 <= i < |r| ensures r[i].1.mangaId in Keys(manga) {
      assert r[i] == if chapters[i].0 == id then (id, c) else chapters[i];
    }
  }

  lemma OwnedAfterChapterDelete(chapters: Table<Chapter>, manga: Table<Manga>, id: int)
    requires ChaptersOwned(chapters, manga)
    ensures ChaptersOwned(Delete(chapters, id), manga)
  {
    RemoveKeysSubset(chapters, {id});
    var r := Delete(chapters, id);
    forall i | 0 <= i < |r| ensures r[i].1.mangaId in Keys(manga) {
      var j :| 0 <= j < |chapters| && chapters[j] == r[i];
    }
  }

  /** Deleting a title together with its chapters leaves no chapter without a title. */
  lemma OwnedAfterCascade(chapters: Table<Chapter>, manga: Table<Manga>, id: int)
    requires ChaptersOwned(chapters, manga)
    ensures ChaptersOwned(ChaptersNotOf(chapters, id), Delete(manga, id))
  {
    var r := ChaptersNotOf(chapters, id);
    GetAfterDelete(manga, id);
    forall i | 0 <= i < |r| ensures r[i].1.mangaId in Keys(Delete(manga, id)) {
      var j :| 0 <= j < |chapters| && chapters[j] == r[i];
      assert Get(Delete(manga, id), r[i].1.mangaId) == Get(manga, r[i].1.mangaId);
    }
  }

  /** Under the invariant a title that does not exist has no chapters to delete. */
  lemma {:induction false} NothingToCascade(chapters: Table<Chapter>, manga: Table<Manga>, id: int)
    requires ChaptersOwned(chapters, manga) && id !in Keys(manga)
    ensures ChaptersNotOf(chapters, id) == chapters
    decreases |chapters|
  {
    if chapters != [] {
      assert chapters[0].1.mangaId != id;
      assert ChaptersOwned(chapters[1..], manga) by {
        forall i | 0 <= i < |chapters[1..]| ensures chapters[1..][i].1.mangaId in Keys(manga) {
          assert chapters[1..][i] == chapters[i + 1];
        }
      }
      NothingToCascade(chapters[1..], manga, id);
      assert chapters == [chapters[0]] + chapters[1..];
    }
  }

  /**
   * What the invariant is for: the latest-updates and latest-chapters listings
   * look up each row's title with a non-null assertion, and under the
   * invariant every such lookup finds the title.
   */
  lemma OwnedRowsHaveTitles(store: MemStorage, limit: int)
    requires Consistent(store)
    ensures forall i :: 0 <= i < |LatestUpdates(Values(store.chapters), store.manga, limit)| ==>
      LatestUpdates(Values(store.chapters), store.manga, limit)[i].manga.Some?
    ensures forall i :: 0 <= i < |LatestChapterRows(Values(store.chapters), store.manga, limit)| ==>
      LatestChapterRows(Values(store.chapters), store.manga, limit)[i].manga.Some?
  {
    var chs := Values(store.chapters);
    LatestChapterRowsMembers(chs, store.manga, limit);
    forall c | c in chs ensures c.mangaId in Keys(store.manga) {
      var k :| 0 <= k < |chs| && chs[k] == c;
    }
  }

  // ---------------------------------------------------------- accounts

  /** JavaScript truthiness of a request string: present and not empty. */
  predicate Given(s: Option<string>) {
    s.Some? && s.value != ""
  }

  function SessionOf(u: User): SessionUser {
    SessionUser(u.id, u.username, u.isAdmin)
  }

  /**
   * The login decision: 400 when a field is missing, 401 unless the first
   * account with that username has exactly that password, 200 otherwise.
   */
  function Authenticate(store: MemStorage, req: Credentials): (r: Reply<SessionUser>)
    reads store
    ensures r.Error? ==> r.code == 400 || r.code == 401
    ensures r.code == 400 <==> !Given(req.username) || !Given(req.password)
    ensures r.Ok? ==> r.code == 200 && r.body.username == req.username.value
    ensures r.Ok? ==> exists i :: 0 <= i < |store.users| && store.users[i].1.username == req.username.value &&
                                  store.users[i].1.password == req.password && SessionOf(store.users[i].1) == r.body
  {
    if !Given(req.username) || !Given(req.password) then Error(400, MissingCredentials)
    else
      var found := store.GetUserByUsername(req.username.value);
      if found.None? || found.value.password != req.password then Error(401, BadCredentials)
      else Ok(200, SessionOf(found.value))
  }

  /** With unique usernames, login succeeds exactly when some account has that username and password. */
  lemma LoginMatchesAccount(store: MemStorage, username: string, password: string)
    requires UniqueUsernames(store.users) && username != "" && password != ""
    ensures Authenticate(store, Credentials(Some(username), Some(password))).Ok? <==>
            exists i :: 0 <= i < |store.users| && store.users[i].1.username == username &&
                        store.users[i].1.password == Some(password)
  {
    var users := store.users;
    if j :| 0 <= j < |users| && users[j].1.username == username && users[j].1.password == Some(password) {
      var found := store.GetUserByUsername(username);
      assert found.Some?;
      var i :| 0 <= i < |users| && users[i].1 == found.value && store.FirstUserNamed(i, username);
      assert users[i].1.username == username;
      assert i == j;
    }
  }

  /** An account that is the only one with its name can log in with its password. */
  lemma NewestAccountCanLogIn(store: MemStorage, name: string, password: string)
    requires |store.users| > 0
    requires store.users[|store.users| - 1].1.username == name
    requires store.users[|store.users| - 1].1.password == Some(password)
    requires forall i :: 0 <= i < |store.users| - 1 ==> store.users[i].1.username != name
    requires name != "" && password != ""
    ensures Authenticate(store, Credentials(Some(name), Some(password))) == Ok(200, SessionOf(store.users[|store.users| - 1].1))
  {
    var found := store.GetUserByUsername(name);
    var i :| 0 <= i < |store.users| && store.users[i].1 == found.value && store.FirstUserNamed(i, name);
    assert i == |store.users| - 1;
  }

  /** POST /api/auth/login: records the account in the session on success. */
  method Login(store: MemStorage, session: Session, req: Credentials) returns (r: Reply<SessionUser>)
    modifies session
    ensures r == Authenticate(store, req)
    ensures session.user == if r.Ok? then Some(r.body) else old(session.user)
  {
    r := Authenticate(store, req);
    if r.Ok? {
      session.user := Some(r.body);
    }
  }

  /** Some account already has that username. */
  ghost predicate Taken(users: Table<User>, name: string) {
    exists i :: 0 <= i < |users| && users[i].1.username == name
  }

  /** Adding an account whose username no account has keeps usernames unique. */
  lemma UniqueAfterNewAccount(users: Table<User>, entry: (int, User))
    requires UniqueUsernames(users) && !Taken(users, entry.1.username)
    ensures UniqueUsernames(users + [entry])
    ensures forall i :: 0 <= i < |users + [entry]| - 1 ==> (users + [entry])[i].1.username != entry.1.username
  {
    var all := users + [entry];
    forall i, j | 0 <= i < j < |all| ensures all[i].1.username != all[j].1.username {
      assert all[i] == users[i];
      if j < |users| {
        assert all[j] == users[j];
      }
    }
  }

  /** The request as registration stores it: whatever it asks, never an administrator. */
  function AsMember(insert: InsertUser): (u: InsertUser)
    ensures forall id :: !NewUser(u, id).isAdmin
    ensures u.username == insert.username && u.password == insert.password
  {
    insert.(isAdmin := Some(false))
  }

  /**
   * POST /api/auth/register: 400 and no new account when the username is
   * taken; otherwise a non-admin account, recorded in the session, that can
   * log in with the password it registered.
   */
  method Register(store: MemStorage, session: Session, insert: InsertUser) returns (r: Reply<SessionUser>)
    requires store.Valid() && UniqueUsernames(store.users)
    modifies store`users, store`userId, session
    ensures store.Valid() && UniqueUsernames(store.users)
    ensures ChaptersOwned(old(store.chapters), old(store.manga)) ==> ChaptersOwned(store.chapters, store.manga)
    ensures Taken(old(store.users), insert.username) ==>
      r == Error(400, UsernameTaken) && store.users == old(store.users) && store.userId == old(store.userId) &&
      session.user == old(session.user)
    ensures !Taken(old(store.users), insert.username) ==>
      store.users == old(store.users) + [(old(store.userId), NewUser(AsMember(insert), old(store.userId)))] &&
      store.userId == old(store.userId) + 1 &&
      r == Ok(201, SessionOf(NewUser(AsMember(insert), old(store.userId)))) && !r.body.isAdmin &&
      session.user == Some(r.body)
    ensures !Taken(old(store.users), insert.username) && Given(Some(insert.username)) && Given(insert.password) ==>
      Authenticate(store, Credentials(Some(insert.username), insert.password)) == Ok(200, r.body)
  {
    var existing := store.GetUserByUsername(insert.username);
    if existing.Some? {
      assert Taken(store.users, insert.username);
      return Error(400, UsernameTaken);
    }
    ghost var entry := (store.userId, NewUser(AsMember(insert), store.userId));
    UniqueAfterNewAccount(store.users, entry);
    var u := store.CreateUser(AsMember(insert));
    r := Ok(201, SessionOf(u));
    session.user := Some(r.body);
    if Given(Some(insert.username)) && Given(insert.password) {
      NewestAccountCanLogIn(store, insert.username, insert.password.value);
    }
  }

  /** POST /api/auth/logout: the session no longer holds a user. */
  method Logout(session: Session) returns (r: Reply<string>)
    modifies session
    ensures session.user == None && r.code == 200
  {
    session.user := None;
    r := Ok(200, "Logged out successfully");
  }

  /** GET /api/auth/me: the session's user, or 401. */
  function Me(user: Option<SessionUser>): (r: Reply<SessionUser>)
    ensures r.Ok? <==> user.Some?
    ensures r.Ok? ==> r.code == 200 && Some(r.body) == user
    ensures r.Error? ==> r.code == 401
  {
    if user.None? then Error(401, NotAuthenticated) else Ok(200, user.value)
  }

  /**
   * POST /api/auth/login followed by GET /api/auth/me on the same session:
   * after a successful login the session answers with the account that
   * logged in; after a failed one it answers as before.
   */
  method LoginThenMe(store: MemStorage, session: Session, req: Credentials)
    returns (login: Reply<SessionUser>, me: Reply<SessionUser>)
    modifies session
    ensures login.Ok? ==> me == Ok(200, login.body) && req.username == Some(me.body.username)
    ensures login.Error? ==> me == Me(old(session.user))
  {
    login := Login(store, session, req);
    me := Me(session.user);
  }

  // ------------------------------------------------------- public reads

  /** GET /api/manga/search: 400 without a query, otherwise the matching titles. */
  function Search(store: MemStorage, q: Option<string>): (r: Reply<seq<Manga>>)
    reads store
    ensures r.Error? <==> !Given(q)
    ensures r.Error? ==> r.code == 400
    ensures r.Ok? ==> r.code == 200
    ensures r.Ok? ==> forall i :: 0 <= i < |r.body| ==> r.body[i] in Values(store.manga) && MatchesQuery(r.body[i], q.value)
    ensures r.Ok? ==> forall i :: 0 <= i < |store.manga| && MatchesQuery(store.manga[i].1, q.value) ==> store.manga[i].1 in r.body
  {
    if !Given(q) then Error(400, QueryRequired) else Ok(200, store.SearchManga(q.value))
  }

  /** GET /api/manga/:id: 400 when the id does not parse, 404 when the title is absent. */
  function MangaDetails(store: MemStorage, id: Option<int>): (r: Reply<MangaWithRelations>)
    reads store
    requires store.Valid()
    ensures r.Error? && r.code == 400 <==> id.None?
    ensures r.Error? && r.code == 404 <==> id.Some? && id.value !in Keys(store.manga)
    ensures r.Ok? ==> r.code == 200 && Get(store.manga, id.value) == Some(r.body.manga)
    ensures r.Ok? ==> store.GetMangaWithRelations(id.value) == Some(r.body)
  {
    if id.None? then Error(400, BadMangaId)
    else
      var found := store.GetMangaWithRelations(id.value);
      if found.None? then Error(404, MangaNotFound) else Ok(200, found.value)
  }

  /** GET /api/chapters/:id: 400 when the id does not parse, 404 when the chapter is absent. */
  function ChapterDetails(store: MemStorage, id: Option<int>): (r: Reply<Chapter>)
    reads store
    requires store.Valid()
    ensures r.Error? && r.code == 400 <==> id.None?
    ensures r.Error? && r.code == 404 <==> id.Some? && id.value !in Keys(store.chapters)
    ensures r.Ok? ==> r.code == 200 && Get(store.chapters, id.value) == Some(r.body)
  {
    if id.None? then Error(400, BadChapterId)
    else
      var found := store.GetChapterById(id.value);
      if found.None? then Error(404, ChapterNotFound) else Ok(200, found.value)
  }

  // ------------------------------------------------------ admin writes

  /** POST /api/genres. */
  method PostGenre(store: MemStorage, user: Option<SessionUser>, name: string) returns (r: Reply<Genre>)
    requires store.Valid() && UniqueUsernames(store.users)
    modifies store`genres, store`genreId
    ensures store.Valid() && UniqueUsernames(store.users)
    ensures ChaptersOwned(old(store.chapters), old(store.manga)) ==> ChaptersOwned(store.chapters, store.manga)
    ensures RequireAdmin(user).Some? ==>
      r == Error(403, AdminOnly) && store.genres == old(store.genres) && store.genreId == old(store.genreId)
    ensures RequireAdmin(user).None? ==>
      r == Ok(201, Genre(old(store.genreId), name)) && store.genres == old(store.genres) + [(r.body.id, r.body)]
  {
    if RequireAdmin(user).Some? {
      return Error(403, AdminOnly);
    }
    var g := store.CreateGenre(name);
    r := Ok(201, g);
  }

  /** POST /api/categories. */
  method PostCategory(store: MemStorage, user: Option<SessionUser>, name: string) returns (r: Reply<Category>)
    requires store.Valid() && UniqueUsernames(store.users)
    modifies store`categories, store`categoryId
    ensures store.Valid() && UniqueUsernames(store.users)
    ensures ChaptersOwned(old(store.chapters), old(store.manga)) ==> ChaptersOwned(store.chapters, store.manga)
    ensures RequireAdmin(user).Some? ==>
      r == Error(403, AdminOnly) && store.categories == old(store.categories) &&
      store.categoryId == old(store.categoryId)
    ensures RequireAdmin(user).None? ==>
      r == Ok(201, Category(old(store.categoryId), name)) &&
      store.categories == old(store.categories) + [(r.body.id, r.body)]
  {
    if RequireAdmin(user).Some? {
      return Error(403, AdminOnly);
    }
    var c := store.CreateCategory(name);
    r := Ok(201, c);
  }

  /** POST /api/manga, at clock reading `now`. */
  method PostManga(store: MemStorage, user: Option<SessionUser>, insert: InsertManga, now: nat) returns (r: Reply<Manga>)
    requires store.Valid() && UniqueUsernames(store.users) && store.clock <= now
    modifies store`manga, store`mangaId, store`clock
    ensures store.Valid() && UniqueUsernames(store.users)
    ensures ChaptersOwned(old(store.chapters), old(store.manga)) ==> ChaptersOwned(store.chapters, store.manga)
    ensures RequireAdmin(user).Some? ==>
      r == Error(403, AdminOnly) && store.manga == old(store.manga) && store.mangaId == old(store.mangaId)
    ensures r.Error? ==> store.clock == old(store.clock)
    ensures RequireAdmin(user).None? ==>
      r == Ok(201, NewManga(insert, old(store.mangaId), now)) && store.manga == old(store.manga) + [(r.body.id, r.body)]
  {
    if RequireAdmin(user).Some? {
      return Error(403, AdminOnly);
    }
    if ChaptersOwned(store.chapters, store.manga) {
      OwnedAfterNewTitle(store.chapters, store.manga, (store.mangaId, NewManga(insert, store.mangaId, now)));
    }
    var m := store.CreateManga(insert, now);
    r := Ok(201, m);
  }

  /** PUT /api/manga/:id: 404 exactly when the store has no such title. */
  method PutManga(store: MemStorage, user: Option<SessionUser>, id: Option<int>, patch: MangaPatch) returns (r: Reply<Manga>)
    requires store.Valid() && UniqueUsernames(store.users)
    modifies store`manga
    ensures store.Valid() && UniqueUsernames(store.users)
    ensures ChaptersOwned(old(store.chapters), old(store.manga)) ==> ChaptersOwned(store.chapters, store.manga)
    ensures r.Error? ==> store.manga == old(store.manga)
    ensures RequireAdmin(user).Some? ==> r == Error(403, AdminOnly)
    ensures RequireAdmin(user).None? ==> (r == Error(400, BadMangaId) <==> id.None?)
    ensures RequireAdmin(user).None? && id.Some? ==>
      (r == Error(404, MangaNotFound) <==> id.value !in Keys(old(store.manga)))
    ensures r.Ok? ==> (r.code == 200 && Get(old(store.manga), id.value).Some? &&
      r.body == MergeManga(Get(old(store.manga), id.value).value, patch) &&
      store.manga == Set(old(store.manga), id.value, r.body))
  {
    if RequireAdmin(user).Some? {
      return Error(403, AdminOnly);
    }
    if id.None? {
      return Error(400, BadMangaId);
    }
    var updated := store.UpdateManga(id.value, patch);
    if updated.None? {
      return Error(404, MangaNotFound);
    }
    r := Ok(200, updated.value);
  }

  /**
   * DELETE /api/manga/:id: 404 exactly when absent; otherwise the title goes
   * with its chapters. The chapters naming the id are removed before the
   * title is looked up, so on a 404 they are gone too; there are none when
   * every chapter has its title.
   */
  method DeleteMangaRoute(store: MemStorage, user: Option<SessionUser>, id: Option<int>) returns (r: Reply<string>)
    requires store.Valid() && UniqueUsernames(store.users)
    modifies store`manga, store`chapters
    ensures store.Valid() && UniqueUsernames(store.users)
    ensures ChaptersOwned(old(store.chapters), old(store.manga)) ==> ChaptersOwned(store.chapters, store.manga)
    ensures r.Error? ==> store.manga == old(store.manga)
    ensures r == Error(403, AdminOnly) || r == Error(400, BadMangaId) ==> store.chapters == old(store.chapters)
    ensures r == Error(404, MangaNotFound) ==>
      id.Some? && store.chapters == ChaptersNotOf(old(store.chapters), id.value)
    ensures r == Error(404, MangaNotFound) && ChaptersOwned(old(store.chapters), old(store.manga)) ==>
      store.chapters == old(store.chapters)
    ensures RequireAdmin(user).Some? ==> r == Error(403, AdminOnly)
    ensures RequireAdmin(user).None? ==> (r == Error(400, BadMangaId) <==> id.None?)
    ensures RequireAdmin(user).None? && id.Some? ==>
      (r == Error(404, MangaNotFound) <==> id.value !in Keys(old(store.manga)))
    ensures r.Ok? ==> (r.code == 200 && store.manga == Delete(old(store.manga), id.value) &&
      store.chapters == ChaptersNotOf(old(store.chapters), id.value))
  {
    if RequireAdmin(user).Some? {
      return Error(403, AdminOnly);
    }
    if id.None? {
      return Error(400, BadMangaId);
    }
    if ChaptersOwned(store.chapters, store.manga) {
      OwnedAfterCascade(store.chapters, store.manga, id.value);
      if id.value !in Keys(store.manga) {
        NothingToCascade(store.chapters, store.manga, id.value);
      }
    }
    if id.value !in Keys(store.manga) {
      DeleteAbsent(store.manga, id.value);
    }
    var existed := store.DeleteManga(id.value);
    if !existed {
      return Error(404, MangaNotFound);
    }
    r := Ok(200, "Manga deleted successfully");
  }

  /**
   * A chapter left without its title is removed by a delete of that missing
   * title, which still answers 404.
   */
  lemma {:induction false} DeleteAbsentRemovesOrphans(chapters: Table<Chapter>, manga: Table<Manga>, i: int)
    requires 0 <= i < |chapters| && chapters[i].1.mangaId !in Keys(manga)
    ensures ChaptersNotOf(chapters, chapters[i].1.mangaId) != chapters
  {
    var id := chapters[i].1.mangaId;
    assert chapters[i] !in ChaptersNotOf(chapters, id);
    assert chapters[i] in chapters;
  }

  /** POST /api/chapters: 404 and no new chapter when the title does not exist. */
  method PostChapter(store: MemStorage, user: Option<SessionUser>, insert: InsertChapter, now: nat) returns (r: Reply<Chapter>)
    requires store.Valid() && UniqueUsernames(store.users) && store.clock <= now
    modifies store`chapters, store`chapterId, store`clock
    ensures store.Valid() && UniqueUsernames(store.users)
    ensures ChaptersOwned(old(store.chapters), old(store.manga)) ==> ChaptersOwned(store.chapters, store.manga)
    ensures r.Error? ==> store.chapters == old(store.chapters) && store.chapterId == old(store.chapterId)
    ensures r.Error? ==> store.clock == old(store.clock)
    ensures RequireAdmin(user).Some? ==> r == Error(403, AdminOnly)
    ensures RequireAdmin(user).None? ==>
      (r == Error(404, MangaNotFound) <==> insert.mangaId !in Keys(store.manga))
    ensures r.Ok? ==> (r == Ok(201, NewChapter(insert, old(store.chapterId), now)) &&
      store.chapters == old(store.chapters) + [(r.body.id, r.body)])
  {
    if RequireAdmin(user).Some? {
      return Error(403, AdminOnly);
    }
    var owner := store.GetMangaById(insert.mangaId);
    if owner.None? {
      return Error(404, MangaNotFound);
    }
    if ChaptersOwned(store.chapters, store.manga) {
      OwnedAfterNewChapter(store.chapters, store.manga, (store.chapterId, NewChapter(insert, store.chapterId, now)));
    }
    var c := store.CreateChapter(insert, now);
    r := Ok(201, c);
  }

  /**
   * PUT /api/chapters/:id as written: 404 exactly when the chapter is absent,
   * but a `mangaId` in the patch is stored without checking the title exists,
   * so only the store's own invariant is kept.
   */
  method PutChapterAsWritten(store: MemStorage, user: Option<SessionUser>, id: Option<int>, patch: ChapterPatch)
    returns (r: Reply<Chapter>)
    requires store.Valid() && UniqueUsernames(store.users)
    modifies store`chapters
    ensures store.Valid() && UniqueUsernames(store.users)
    ensures r.Error? ==> store.chapters == old(store.chapters)
    ensures RequireAdmin(user).Some? ==> r == Error(403, AdminOnly)
    ensures RequireAdmin(user).None? ==> (r == Error(400, BadChapterId) <==> id.None?)
    ensures RequireAdmin(user).None? && id.Some? ==>
      (r == Error(404, ChapterNotFound) <==> id.value !in Keys(old(store.chapters)))
    ensures r.Ok? ==> (r.code == 200 && Get(old(store.chapters), id.value).Some? &&
      r.body == MergeChapter(Get(old(store.chapters), id.value).value, patch) &&
      store.chapters == Set(old(store.chapters), id.value, r.body))
  {
    if RequireAdmin(user).Some? {
      return Error(403, AdminOnly);
    }
    if id.None? {
      return Error(400, BadChapterId);
    }
    var updated := store.UpdateChapter(id.value, patch);
    if updated.None? {
      return Error(404, ChapterNotFound);
    }
    r := Ok(200, updated.value);
  }

  /**
   * A patch that names title `mangaId` and no other field. Merged with
   * `MergeChapter`, it also clears the chapter's content, as every update does.
   */
  function Retarget(mangaId: int): (p: ChapterPatch)
    ensures p.mangaId == Some(mangaId)
  {
    ChapterPatch(Some(mangaId), None, None, None, None)
  }

  /**
   * The update the as-written handler stores, with a patch naming a title
   * that does not exist, leaves that chapter without a title.
   */
  lemma {:induction false} AsWrittenUpdateOrphans(chapters: Table<Chapter>, manga: Table<Manga>, id: int, mangaId: int)
    requires id in Keys(chapters) && mangaId !in Keys(manga)
    ensures !ChaptersOwned(Set(chapters, id, MergeChapter(Get(chapters, id).value, Retarget(mangaId))), manga)
  {
    var c := MergeChapter(Get(chapters, id).value, Retarget(mangaId));
    var r := Set(chapters, id, c);
    assert r == Replace(chapters, id, c);
    var j :| 0 <= j < |chapters| && Keys(chapters)[j] == id;
    assert r[j] == (id, c);
  }

  /** The situation exists: one title, one chapter of it, and a patch naming title 2. */
  lemma AsWrittenUpdateOrphansExample()
    ensures var c := Chapter(1, 1, "", 1, "images", ChapterContent(None, None), 0);
            var manga := [(1, Manga(1, "", "", "", "", None, "ongoing", [], [], 0))];
            ChaptersOwned([(1, c)], manga) &&
            !ChaptersOwned(Set([(1, c)], 1, MergeChapter(c, Retarget(2))), manga)
  {
    var c := Chapter(1, 1, "", 1, "images", ChapterContent(None, None), 0);
    var manga := [(1, Manga(1, "", "", "", "", None, "ongoing", [], [], 0))];
    assert Keys(manga) == [1];
    assert Keys([(1, c)]) == [1];
    AsWrittenUpdateOrphans([(1, c)], manga, 1, 2);
  }

  /**
   * Continuing that situation: a delete of the missing title 2 answers 404
   * yet removes the orphaned chapter.
   */
  lemma DeleteAfterOrphanExample()
    ensures var c := Chapter(1, 1, "", 1, "images", ChapterContent(None, None), 0);
            var manga := [(1, Manga(1, "", "", "", "", None, "ongoing", [], [], 0))];
            var orphaned := Set([(1, c)], 1, MergeChapter(c, Retarget(2)));
            2 !in Keys(manga) && |orphaned| == 1 && ChaptersNotOf(orphaned, 2) == []
  {
    var c := Chapter(1, 1, "", 1, "images", ChapterContent(None, None), 0);
    var manga := [(1, Manga(1, "", "", "", "", None, "ongoing", [], [], 0))];
    assert Keys(manga) == [1];
    assert Keys([(1, c)]) == [1];
    var orphaned := Set([(1, c)], 1, MergeChapter(c, Retarget(2)));
    assert orphaned == [(1, MergeChapter(c, Retarget(2)))];
  }

  /** A patch that names no title, or one that exists, leaves the chapter with a title. */
  lemma OwnerStillExists(chapters: Table<Chapter>, manga: Table<Manga>, id: int, patch: ChapterPatch)
    requires ChaptersOwned(chapters, manga) && Get(chapters, id).Some?
    requires patch.mangaId.None? || patch.mangaId.value in Keys(manga)
    ensures MergeChapter(Get(chapters, id).value, patch).mangaId in Keys(manga)
  {
    var k :| 0 <= k < |chapters| && chapters[k] == (id, Get(chapters, id).value);
  }

  /**
   * PUT /api/chapters/:id with the check POST /api/chapters makes: a patch
   * naming a title that does not exist is refused with 404, so every chapter
   * keeps a title.
   */
  method PutChapterChecked(store: MemStorage, user: Option<SessionUser>, id: Option<int>, patch: ChapterPatch)
    returns (r: Reply<Chapter>)
    requires Consistent(store)
    modifies store`chapters
    ensures Consistent(store)
    ensures r.Error? ==> store.chapters == old(store.chapters)
    ensures RequireAdmin(user).Some? ==> r == Error(403, AdminOnly)
    ensures RequireAdmin(user).None? ==> (r == Error(400, BadChapterId) <==> id.None?)
    ensures RequireAdmin(user).None? && id.Some? && patch.mangaId.Some? && patch.mangaId.value !in Keys(store.manga) ==>
      r == Error(404, MangaNotFound)
    ensures RequireAdmin(user).None? && id.Some? && (patch.mangaId.None? || patch.mangaId.value in Keys(store.manga)) ==>
      (r == Error(404, ChapterNotFound) <==> id.value !in Keys(old(store.chapters)))
    ensures r.Ok? ==> (r.code == 200 && Get(old(store.chapters), id.value).Some? &&
      r.body == MergeChapter(Get(old(store.chapters), id.value).value, patch) &&
      store.chapters == Set(old(store.chapters), id.value, r.body))
  {
    if RequireAdmin(user).Some? {
      return Error(403, AdminOnly);
    }
    if id.None? {
      return Error(400, BadChapterId);
    }
    if patch.mangaId.Some? && store.GetMangaById(patch.mangaId.value).None? {
      return Error(404, MangaNotFound);
    }
    var existing := store.GetChapterById(id.value);
    if existing.None? {
      return Error(404, ChapterNotFound);
    }
    OwnerStillExists(store.chapters, store.manga, id.value, patch);
    OwnedAfterChapterUpdate(store.chapters, store.manga, id.value, MergeChapter(existing.value, patch));
    var updated := store.UpdateChapter(id.value, patch);
    r := Ok(200, updated.value);
  }

  /** DELETE /api/chapters/:id: 404 exactly when the chapter is absent. */
  method DeleteChapterRoute(store: MemStorage, user: Option<SessionUser>, id: Option<int>) returns (r: Reply<string>)
    requires store.Valid() && UniqueUsernames(store.users)
    modifies store`chapters
    ensures store.Valid() && UniqueUsernames(store.users)
    ensures ChaptersOwned(old(store.chapters), old(store.manga)) ==> ChaptersOwned(store.chapters, store.manga)
    ensures r.Error? ==> store.chapters == old(store.chapters)
    ensures RequireAdmin(user).Some? ==> r == Error(403, AdminOnly)
    ensures RequireAdmin(user).None? ==> (r == Error(400, BadChapterId) <==> id.None?)
    ensures RequireAdmin(user).None? && id.Some? ==>
      (r == Error(404, ChapterNotFound) <==> id.value !in Keys(old(store.chapters)))
    ensures r.Ok? ==> r.code == 200 && store.chapters == Delete(old(store.chapters), id.value)
    ensures r.Ok? ==> Get(store.chapters, id.value).None?
  {
    if RequireAdmin(user).Some? {
      return Error(403, AdminOnly);
    }
    if id.None? {
      return Error(400, BadChapterId);
    }
    if ChaptersOwned(store.chapters, store.manga) {
      OwnedAfterChapterDelete(store.chapters, store.manga, id.value);
    }
    if id.value !in Keys(store.chapters) {
      DeleteAbsent(store.chapters, id.value);
    }
    var existed := store.DeleteChapter(id.value);
    if !existed {
      return Error(404, ChapterNotFound);
    }
    r := Ok(200, "Chapter deleted successfully");
  }
}
