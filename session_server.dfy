/** The session-based back end (P4/vibes/server.js): a Users table, an
    Articles table and the server-side session store, with one method per
    route. Each request runs atomically; the caller's session cookie is the
    `sid` argument. */
module SessionServer {
  import opened Auth
  import opened Bcrypt

  /** The value of the session cookie a client presents. */
  type SessionId = string

  datatype UserRow = UserRow(username: string, passwordHash: Digest, role: Role)
  datatype ArticleRow = ArticleRow(url: string, userId: Id)

  /** A row of the article listing: the article joined with its owner's username. */
  datatype ListedArticle = ListedArticle(url: string, userId: Id, username: string)

  /** The JSON bodies the routes send. */
  datatype Body =
    | Error(error: string)
    | Message(message: string)
    | UserReply(message: string, user: Principal)
    | MeReply(user: Principal)
    | ArticleAdded(message: string, id: Id, url: string, userId: Id)
    | ArticleList(articles: map<Id, ListedArticle>)

  datatype Response = Response(status: nat, body: Body)

  const CredentialsRequired := "Username and password are required"
  const UsernameTooShort := "Username must be at least 3 characters"
  const PasswordTooShort := "Password must be at least 4 characters"
  const UsernameExists := "Username already exists"
  const RegistrationSuccessful := "Registration successful"
  const InvalidCredentials := "Invalid username or password"
  const LoginSuccessful := "Login successful"
  const LogoutSuccessful := "Logout successful"
  const Unauthorized := "Unauthorized. Please log in."
  const UrlRequired := "URL is required"
  const InvalidUrl := "Invalid URL format"
  const ArticleAddedMessage := "Article added successfully"
  const ArticleNotFound := "Article not found"
  const NotOwner := "You can only delete your own articles"
  const ArticleDeleted := "Article deleted successfully"

  const AdminName := "admin"
  const AdminPassword := "admin"

  /** JavaScript truthiness of a request-body string field (`!username`,
      `!url` are its negation): the field is there and has at least one character. */
  predicate Present(field: Option<string>) {
    field.Some? && field.value != ""
  }

  /** The shape checks of /api/register, in the order the handler makes them:
      the first failing check gives the error message. */
  function ValidateRegistration(username: Option<string>, password: Option<string>): (err: Option<string>)
    ensures err.None? <==>
      username.Some? && |username.value| >= 3 && password.Some? && |password.value| >= 4
    ensures err == Some(CredentialsRequired) <==> !Present(username) || !Present(password)
    ensures err == Some(UsernameTooShort) <==>
      Present(username) && Present(password) && |username.value| < 3
    ensures err == Some(PasswordTooShort) <==>
      Present(username) && Present(password) && |username.value| >= 3 && |password.value| < 4
  {
    if !Present(username) || !Present(password) then Some(CredentialsRequired)
    else if |username.value| < 3 then Some(UsernameTooShort)
    else if |password.value| < 4 then Some(PasswordTooShort)
    else None
  }

  /** The UNIQUE constraint on Users.username. */
  ghost predicate UniqueUsernames(users: map<Id, UserRow>) {
    forall i, j :: i in users && j in users && users[i].username == users[j].username ==> i == j
  }

  /** The ids of the rows whose username is `name`. */
  ghost function NamedRows(users: map<Id, UserRow>, name: string): set<Id> {
    set id | id in users && users[id].username == name
  }

  /** Uniqueness means exactly that no name is held by two rows. */
  lemma {:induction false} UniqueUsernamesIff(users: map<Id, UserRow>)
    ensures UniqueUsernames(users) <==> forall name :: |NamedRows(users, name)| <= 1
  {
    if UniqueUsernames(users) {
      forall name ensures |NamedRows(users, name)| <= 1 {
        var named := NamedRows(users, name);
        if named != {} {
          var id :| id in named;
          assert named == {id};
        }
      }
    }
    if !UniqueUsernames(users) {
      var i, j :| i in users && j in users && users[i].username == users[j].username && i != j;
      var named := NamedRows(users, users[i].username);
      assert {i, j} <= named;
      assert |{i, j}| == 2;
      assert |named| >= 2 by {
        assert named == {i, j} + (named - {i, j});
      }
    }
  }

  /** `SELECT * FROM Users WHERE username = ?`: the id of the one row with that name, if any. */
  function FindUser(users: map<Id, UserRow>, name: string): (r: Option<Id>)
    requires UniqueUsernames(users)
    ensures r.Some? ==> r.value in users && users[r.value].username == name
    ensures r.None? ==> forall id :: id in users ==> users[id].username != name
  {
    if exists id :: id in users && users[id].username == name then
      var id :| id in users && users[id].username == name;
      Some(id)
    else
      None
  }

  /** `isAuthenticated`: the session exists and its userId is truthy (not 0). */
  function SessionPrincipal(sessions: map<SessionId, Principal>, sid: SessionId): Option<Principal> {
    if sid in sessions && sessions[sid].id != 0 then Some(sessions[sid]) else None
  }

  /** A session names an existing user with that user's stored name and role. */
  ghost predicate SessionMatches(users: map<Id, UserRow>, p: Principal) {
    p.id in users && users[p.id].username == p.username && users[p.id].role == p.role
  }

  /** When user ids are positive and every session matches its user, as the
      server's invariant keeps them, the userId test never fails on a stored
      session: a cookie authenticates exactly when it has a session, and then
      as a stored user with that user's name and role. It follows from the
      definitions alone. */
  lemma SessionAuthenticates(users: map<Id, UserRow>, sessions: map<SessionId, Principal>, sid: SessionId)
    requires forall id :: id in users ==> 1 <= id
    requires forall s :: s in sessions ==> SessionMatches(users, sessions[s])
    ensures SessionPrincipal(sessions, sid).Some? <==> sid in sessions
    ensures sid in sessions ==> SessionPrincipal(sessions, sid) == Some(sessions[sid])
    ensures SessionPrincipal(sessions, sid).Some? ==> SessionMatches(users, SessionPrincipal(sessions, sid).value)
  {
  }

  class Server {
    var users: map<Id, UserRow>
    var articles: map<Id, ArticleRow>
    var nextUserId: Id
    var nextArticleId: Id
    var sessions: map<SessionId, Principal>

    /** Ids are positive and below the AUTOINCREMENT counters, usernames are
        unique, every session matches the user it names, and every article's
        owner is a user. SQLite does not enforce the FOREIGN KEY clause here
        (foreign keys are never switched on); the owner part holds because an
        article's owner id comes from a session that names a stored user, and
        no route deletes users. */
    ghost predicate Valid()
      reads this
    {
      1 <= nextUserId && 1 <= nextArticleId
      && (forall id :: id in users ==> 1 <= id < nextUserId)
      && (forall id :: id in articles ==> 1 <= id < nextArticleId && articles[id].userId in users)
      && UniqueUsernames(users)
      && (forall sid :: sid in sessions ==> SessionMatches(users, sessions[sid]))
    }

    /** An empty database and no sessions. */
    constructor ()
      ensures Valid()
      ensures users == map[] && articles == map[] && sessions == map[]
      ensures nextUserId == 1 && nextArticleId == 1
    {
      users, articles, sessions := map[], map[], map[];
      nextUserId, nextArticleId := 1, 1;
    }

    /** `createAdminUser` at startup: inserts admin/admin with role admin
        unless a user named admin already exists. */
    method CreateAdminUser(salt: nat)
      requires Valid()
      modifies this
      ensures Valid()
      ensures old(FindUser(users, AdminName)).Some? ==> unchanged(this)
      ensures old(FindUser(users, AdminName)).None? ==>
        users == old(users)[old(nextUserId) := UserRow(AdminName, Hash(AdminPassword, salt), Admin)]
        && nextUserId == old(nextUserId) + 1
        && articles == old(articles) && nextArticleId == old(nextArticleId)
        && sessions == old(sessions)
      ensures FindUser(users, AdminName).Some?
    {
      if FindUser(users, AdminName).None? {
        var id := nextUserId;
        users := users[id := UserRow(AdminName, Hash(AdminPassword, salt), Admin)];
        nextUserId := nextUserId + 1;
        assert users[id].username == AdminName;
      }
    }

    /** POST /api/register. */
    method Register(sid: SessionId, username: Option<string>, password: Option<string>, salt: nat)
      returns (r: Response)
      requires Valid()
      modifies this
      ensures Valid()
      ensures articles == old(articles) && nextArticleId == old(nextArticleId)
      ensures ValidateRegistration(username, password).Some? ==>
        r == Response(400, Error(ValidateRegistration(username, password).value)) && unchanged(this)
      ensures ValidateRegistration(username, password).None? && old(FindUser(users, username.value)).Some? ==>
        r == Response(400, Error(UsernameExists)) && unchanged(this)
      ensures ValidateRegistration(username, password).None? && old(FindUser(users, username.value)).None? ==>
        var id := old(nextUserId);
        var p := Principal(id, username.value, User);
        id !in old(users)
        && users == old(users)[id := UserRow(username.value, Hash(password.value, salt), User)]
        && nextUserId == id + 1
        && sessions == old(sessions)[sid := p]
        && r == Response(200, UserReply(RegistrationSuccessful, p))
    {
      var err := ValidateRegistration(username, password);
      if err.Some? {
        return Response(400, Error(err.value));
      }
      var hash := Hash(password.value, salt);
      if FindUser(users, username.value).Some? {
        return Response(400, Error(UsernameExists));
      }
      var id := nextUserId;
      users := users[id := UserRow(username.value, hash, User)];
      nextUserId := nextUserId + 1;
      var p := Principal(id, username.value, User);
      sessions := sessions[sid := p];
      r := Response(200, UserReply(RegistrationSuccessful, p));
    }

    /** POST /api/login. An unknown name and a wrong password give the same reply. */
    method Login(sid: SessionId, username: Option<string>, password: Option<string>) returns (r: Response)
      requires Valid()
      modifies this
      ensures Valid()
      ensures users == old(users) && articles == old(articles)
      ensures nextUserId == old(nextUserId) && nextArticleId == old(nextArticleId)
      ensures !Present(username) || !Present(password) ==>
        r == Response(400, Error(CredentialsRequired)) && sessions == old(sessions)
      ensures Present(username) && Present(password) && FindUser(users, username.value).None? ==>
        r == Response(401, Error(InvalidCredentials)) && sessions == old(sessions)
      ensures Present(username) && Present(password) && FindUser(users, username.value).Some? ==>
        var id := FindUser(users, username.value).value;
        var p := Principal(id, users[id].username, users[id].role);
        if Verify(password.value, users[id].passwordHash) then
          sessions == old(sessions)[sid := p] && r == Response(200, UserReply(LoginSuccessful, p))
        else
          sessions == old(sessions) && r == Response(401, Error(InvalidCredentials))
    {
      if !Present(username) || !Present(password) {
        return Response(400, Error(CredentialsRequired));
      }
      var found := FindUser(users, username.value);
      if found.None? {
        return Response(401, Error(InvalidCredentials));
      }
      var id := found.value;
      var user := users[id];
      if !Verify(password.value, user.passwordHash) {
        return Response(401, Error(InvalidCredentials));
      }
      var p := Principal(id, user.username, user.role);
      sessions := sessions[sid := p];
      r := Response(200, UserReply(LoginSuccessful, p));
    }

    /** POST /api/logout: `req.session.destroy`. */
    method Logout(sid: SessionId) returns (r: Response)
      requires Valid()
      modifies this
      ensures Valid()
      ensures users == old(users) && articles == old(articles)
      ensures nextUserId == old(nextUserId) && nextArticleId == old(nextArticleId)
      ensures sessions == old(sessions) - {sid}
      ensures SessionPrincipal(sessions, sid).None?
      ensures r == Response(200, Message(LogoutSuccessful))
    {
      sessions := sessions - {sid};
      r := Response(200, Message(LogoutSuccessful));
    }

    /** GET /api/me: the session's principal, or 401 without one. */
    method Me(sid: SessionId) returns (r: Response)
      requires Valid()
      ensures r.status == 200 ==> r.body.MeReply? && SessionMatches(users, r.body.user)
      ensures SessionPrincipal(sessions, sid).None? ==> r == Response(401, Error(Unauthorized))
      ensures SessionPrincipal(sessions, sid).Some? ==>
        r == Response(200, MeReply(SessionPrincipal(sessions, sid).value))
    {
      var caller := SessionPrincipal(sessions, sid);
      if caller.None? {
        return Response(401, Error(Unauthorized));
      }
      r := Response(200, MeReply(caller.value));
    }

    /** GET /api/articles: every article with its owner's username (the
        inner join), without the ordering by creation time. */
    method ListArticles(sid: SessionId) returns (r: Response)
      ensures SessionPrincipal(sessions, sid).None? ==> r == Response(401, Error(Unauthorized))
      ensures SessionPrincipal(sessions, sid).Some? ==>
        r.status == 200 && r.body.ArticleList?
        && (forall id :: id in r.body.articles <==> id in articles && articles[id].userId in users)
        && (forall id :: id in r.body.articles ==>
              r.body.articles[id] == ListedArticle(articles[id].url, articles[id].userId, users[articles[id].userId].username))
    {
      if SessionPrincipal(sessions, sid).None? {
        return Response(401, Error(Unauthorized));
      }
      var rows := map id | id in articles && articles[id].userId in users ::
        ListedArticle(articles[id].url, articles[id].userId, users[articles[id].userId].username);
      r := Response(200, ArticleList(rows));
    }

    /** POST /api/articles. `urlParses` is whether `new URL(url)` accepts the text. */
    method AddArticle(sid: SessionId, url: Option<string>, urlParses: bool) returns (r: Response)
      requires Valid()
      modifies this
      ensures Valid()
      ensures users == old(users) && sessions == old(sessions) && nextUserId == old(nextUserId)
      ensures SessionPrincipal(sessions, sid).None? ==>
        r == Response(401, Error(Unauthorized)) && unchanged(this)
      ensures SessionPrincipal(sessions, sid).Some? && !Present(url) ==>
        r == Response(400, Error(UrlRequired)) && unchanged(this)
      ensures SessionPrincipal(sessions, sid).Some? && Present(url) && !urlParses ==>
        r == Response(400, Error(InvalidUrl)) && unchanged(this)
      ensures SessionPrincipal(sessions, sid).Some? && Present(url) && urlParses ==>
        var id := old(nextArticleId);
        var owner := sessions[sid].id;
        id !in old(articles)
        && articles == old(articles)[id := ArticleRow(url.value, owner)]
        && nextArticleId == id + 1
        && r == Response(200, ArticleAdded(ArticleAddedMessage, id, url.value, owner))
    {
      var caller := SessionPrincipal(sessions, sid);
      if caller.None? {
        return Response(401, Error(Unauthorized));
      }
      if !Present(url) {
        return Response(400, Error(UrlRequired));
      }
      if !urlParses {
        return Response(400, Error(InvalidUrl));
      }
      var id := nextArticleId;
      articles := articles[id := ArticleRow(url.value, caller.value.id)];
      nextArticleId := nextArticleId + 1;
      r := Response(200, ArticleAdded(ArticleAddedMessage, id, url.value, caller.value.id));
    }

    /** DELETE /api/articles/:id: existence is checked before permission. */
    method DeleteArticle(sid: SessionId, articleId: Id) returns (r: Response)
      requires Valid()
      modifies this
      ensures Valid()
      ensures users == old(users) && sessions == old(sessions)
      ensures nextUserId == old(nextUserId) && nextArticleId == old(nextArticleId)
      ensures SessionPrincipal(sessions, sid).None? ==>
        r == Response(401, Error(Unauthorized)) && articles == old(articles)
      ensures SessionPrincipal(sessions, sid).Some? && articleId !in old(articles) ==>
        r == Response(404, Error(ArticleNotFound)) && articles == old(articles)
      ensures SessionPrincipal(sessions, sid).Some? && articleId in old(articles) ==>
        if CanDelete(sessions[sid], old(articles)[articleId].userId) then
          articles == old(articles) - {articleId} && r == Response(200, Message(ArticleDeleted))
        else
          articles == old(articles) && r == Response(403, Error(NotOwner))
    {
      var caller := SessionPrincipal(sessions, sid);
      if caller.None? {
        return Response(401, Error(Unauthorized));
      }
      if articleId !in articles {
        return Response(404, Error(ArticleNotFound));
      }
      if caller.value.role != Admin && articles[articleId].userId != caller.value.id {
        return Response(403, Error(NotOwner));
      }
      articles := articles - {articleId};
      r := Response(200, Message(ArticleDeleted));
    }
  }

  const AdminRow := UserRow(AdminName, Hash(AdminPassword, 0), Admin)
  const AliceRow := UserRow("alice", Hash("password123", 1), User)
  const BobRow := UserRow("bob", Hash("password123", 2), User)
  const Alice := Principal(2, "alice", User)
  const Bob := Principal(3, "bob", User)

  /** A fresh server after startup: only the seeded admin exists. */
  method Startup() returns (s: Server)
    ensures fresh(s) && s.Valid()
    ensures s.users == map[1 := AdminRow] && s.articles == map[] && s.sessions == map[]
    ensures s.nextUserId == 2 && s.nextArticleId == 1
  {
    s := new Server();
    s.CreateAdminUser(0);
  }

  /** Startup, then alice registers and posts https://example.com, then bob registers. */
  method AliceAndBob() returns (s: Server)
    ensures fresh(s) && s.Valid()
    ensures s.users == map[1 := AdminRow, 2 := AliceRow, 3 := BobRow]
    ensures s.articles == map[1 := ArticleRow("https://example.com", 2)]
    ensures s.sessions == map["alice-cookie" := Alice, "bob-cookie" := Bob]
    ensures s.nextUserId == 4 && s.nextArticleId == 2
  {
    s := Startup();
    assert FindUser(s.users, "alice").None?;
    var reg := s.Register("alice-cookie", Some("alice"), Some("password123"), 1);
    assert s.sessions == map["alice-cookie" := Alice];
    var added := s.AddArticle("alice-cookie", Some("https://example.com"), true);
    assert FindUser(s.users, "bob").None?;
    var regBob := s.Register("bob-cookie", Some("bob"), Some("password123"), 2);
  }

  /** Registering a name twice: the second attempt is refused and the table keeps one row for it. */
  method DuplicateRegistration() returns (second: Response, rowsNamedAlice: set<Id>)
    ensures second == Response(400, Error(UsernameExists))
    ensures |rowsNamedAlice| == 1
  {
    var s := AliceAndBob();
    assert s.users[2].username == "alice" && s.users[1].username != "alice" && s.users[3].username != "alice";
    assert FindUser(s.users, "alice") == Some(2);
    second := s.Register("carol-cookie", Some("alice"), Some("other-password"), 3);
    rowsNamedAlice := set id | id in s.users && s.users[id].username == "alice";
    assert rowsNamedAlice == {2};
  }

  /** Bob may not delete alice's article, an anonymous client is refused and
      an unknown id is not found; none of these removes the article. */
  method RefusedDeletes() returns (bob: Response, anonymous: Response, missing: Response, kept: bool)
    ensures bob == Response(403, Error(NotOwner))
    ensures anonymous == Response(401, Error(Unauthorized))
    ensures missing == Response(404, Error(ArticleNotFound))
    ensures kept
  {
    var s := AliceAndBob();
    bob := s.DeleteArticle("bob-cookie", 1);
    anonymous := s.DeleteArticle("no-cookie", 1);
    missing := s.DeleteArticle("bob-cookie", 7);
    kept := 1 in s.articles;
  }

  /** The admin logs in with admin/admin and deletes alice's article, which is then not listed. */
  method AdminDeletes() returns (login: Response, admin: Response, listing: Response)
    ensures login == Response(200, UserReply(LoginSuccessful, Principal(1, AdminName, Admin)))
    ensures admin == Response(200, Message(ArticleDeleted))
    ensures listing.status == 200 && listing.body.ArticleList? && 1 !in listing.body.articles
  {
    var s := AliceAndBob();
    assert s.users[1].username == AdminName && s.users[2].username != AdminName && s.users[3].username != AdminName;
    assert FindUser(s.users, AdminName) == Some(1);
    login := s.Login("admin-cookie", Some(AdminName), Some(AdminPassword));
    admin := s.DeleteArticle("admin-cookie", 1);
    listing := s.ListArticles("alice-cookie");
  }

  /** After logout the same cookie is no longer authenticated. */
  method LogoutThenMe() returns (before: Response, after: Response)
    ensures before == Response(200, MeReply(Alice))
    ensures after == Response(401, Error(Unauthorized))
  {
    var s := AliceAndBob();
    before := s.Me("alice-cookie");
    var out := s.Logout("alice-cookie");
    after := s.Me("alice-cookie");
  }
}
