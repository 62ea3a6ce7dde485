/** The token-based back end (P4/manual/server.js): a users table and an
    articles table, with one method per route. The caller's identity is the
    bearer token of the `Authorization` header, checked on every protected
    request; nothing about a login is stored on the server. */
module TokenServer {
  import opened Auth
  import opened Bcrypt
  import Strings
  import Jwt

  const SecretKey := "super_secret_key_for_assignment"

  /** A users row. The table has no NOT NULL constraint, so a registration
      without a username stores NULL (None); SQLite's UNIQUE lets NULLs repeat. */
  datatype UserRow = UserRow(username: Option<string>, password: Digest, role: Role)

  /** An articles row; `username` is the poster's name copied from the token. */
  datatype ArticleRow = ArticleRow(url: Option<string>, userId: Id, username: string)

  datatype Body =
    | Error(error: string)
    | Text(text: string)
    | Message(message: string)
    | TokenReply(token: string, username: string, role: Role, id: Id)
    | ArticleEcho(id: Id, url: Option<string>, userId: Id, username: string)
    | Empty

  /** A reply, or none at all when the handler fails on an unhandled rejection. */
  datatype Response = Reply(status: nat, body: Body) | NoReply

  const UsernameExists := "Username already exists"
  const UserCreated := "User created"
  const UserNotFound := "User not found"
  const NotAllowed := "Not Allowed"
  const ArticleNotFound := "Article not found"
  const Deleted := "Deleted successfully"
  const Unauthorized := "Unauthorized"
  const AdminName := "admin"
  const AdminPassword := "admin"

  /** The token: the second space-separated word of the header
      (`authHeader && authHeader.split(' ')[1]`), when it is a non-empty word. */
  function BearerToken(header: Option<string>): (t: Option<string>)
    ensures t.Some? ==> t.value != "" && ' ' !in t.value
    ensures t.Some? ==> header.Some? && |Strings.Split(header.value, ' ')| >= 2 && Strings.Split(header.value, ' ')[1] == t.value
    ensures header.Some? && |Strings.Split(header.value, ' ')| >= 2 && Strings.Split(header.value, ' ')[1] != "" ==>
      t == Some(Strings.Split(header.value, ' ')[1])
  {
    match header
    case None => None
    case Some(h) =>
      var words := Strings.Split(h, ' ');
      if |words| < 2 || words[1] == "" then None else Some(words[1])
  }

  /** Any first word followed by a space and the token yields the token. */
  lemma BearerOf(scheme: string, token: string)
    requires ' ' !in scheme && ' ' !in token && token != ""
    ensures BearerToken(Some(scheme + " " + token)) == Some(token)
  {
    Strings.SplitJoin([scheme, token], ' ');
    assert Strings.Join([scheme, token], ' ') == scheme + " " + token;
  }

  /** A header of one word carries no token. It follows from `Split`'s
      contract (a space-free text is its own single part). */
  lemma OneWordHeader(h: string)
    requires ' ' !in h
    ensures BearerToken(Some(h)) == None
  {
    Strings.SplitJoin([h], ' ');
  }

  /** What `authenticateToken` decides: the verified claims, or the status it sends. */
  datatype AuthResult = Authenticated(principal: Principal) | Rejected(status: nat)

  /** `authenticateToken`: 401 without a token, 403 for a token that does not
      verify, otherwise the principal is exactly the token's claims. */
  function Authenticate(header: Option<string>): (a: AuthResult)
    ensures a == Rejected(401) <==> BearerToken(header).None?
    ensures a == Rejected(403) <==> BearerToken(header).Some? && Jwt.Decode(BearerToken(header).value, SecretKey).None?
    ensures a.Authenticated? ==> Jwt.Sign(a.principal, SecretKey) == BearerToken(header).value
    ensures BearerToken(header).Some? && Jwt.Decode(BearerToken(header).value, SecretKey).Some? ==>
      a == Authenticated(Jwt.Decode(BearerToken(header).value, SecretKey).value)
  {
    var token := BearerToken(header);
    if token.None? then Rejected(401)
    else
      match Jwt.Decode(token.value, SecretKey)
      case None => Rejected(403)
      case Some(claims) => Authenticated(claims)
  }

  /** A token issued by /login, sent as `Bearer <token>`, authenticates as exactly its claims. */
  lemma {:induction false} IssuedTokenAuthenticates(c: Principal)
    ensures Authenticate(Some("Bearer " + Jwt.Sign(c, SecretKey))) == Authenticated(c)
  {
    var t := Jwt.Sign(c, SecretKey);
    assert "Bearer " + t == "Bearer" + " " + t;
    BearerOf("Bearer", t);
    Jwt.TokenRoundTrip(c, SecretKey);
  }

  /** `res.sendStatus(s)` sends the reason phrase of the status as the body
      (section 15.5 of RFC 9110); 401 and 403 are the only ones sent here. */
  function StatusText(status: nat): string {
    if status == 401 then "Unauthorized" else if status == 403 then "Forbidden" else ""
  }

  /** The UNIQUE constraint on users.username, which NULLs do not take part in. */
  ghost predicate UniqueUsernames(users: map<Id, UserRow>) {
    forall i, j :: i in users && j in users && users[i].username.Some? && users[i].username == users[j].username ==> i == j
  }

  /** The ids of the rows whose username is `name`. */
  ghost function NamedRows(users: map<Id, UserRow>, name: string): set<Id> {
    set id | id in users && users[id].username == Some(name)
  }

  /** Uniqueness means exactly that no non-NULL name is held by two rows. */
  lemma {:induction false} UniqueUsernamesIff(users: map<Id, UserRow>)
    ensures UniqueUsernames(users) <==> forall name :: |NamedRows(users, name)| <= 1
  {
    if UniqueUsernames(users) {
      forall name ensures |NamedRows(users, name)| <= 1 {
        var named := NamedRows(users, name);
        if named != {} {
          var id :| id in named;
          assert named == {id};
        }
      }
    }
    if !UniqueUsernames(users) {
      var i, j :| i in users && j in users && users[i].username.Some? && users[i].username == users[j].username && i != j;
      var named := NamedRows(users, users[i].username.value);
      assert {i, j} <= named;
      assert |{i, j}| == 2;
      assert |named| >= 2 by {
        assert named == {i, j} + (named - {i, j});
      }
    }
  }

  /** `SELECT * FROM users WHERE username = ?`. */
  function FindUser(users: map<Id, UserRow>, name: string): (r: Option<Id>)
    requires UniqueUsernames(users)
    ensures r.Some? ==> r.value in users && users[r.value].username == Some(name)
    ensures r.None? ==> forall id :: id in users ==> users[id].username != Some(name)
  {
    if exists id :: id in users && users[id].username == Some(name) then
      var id :| id in users && users[id].username == Some(name);
      Some(id)
    else
      None
  }

  class Server {
    var users: map<Id, UserRow>
    var articles: map<Id, ArticleRow>
    var nextUserId: Id
    var nextArticleId: Id

    /** Ids are positive and below the AUTOINCREMENT counters and non-NULL
        usernames are unique. (Article owners need not be users: the owner id
        comes from a token, and a token names whatever was signed.) */
    ghost predicate Valid()
      reads this
    {
      1 <= nextUserId && 1 <= nextArticleId
      && (forall id :: id in users ==> 1 <= id < nextUserId)
      && (forall id :: id in articles ==> 1 <= id < nextArticleId)
      && UniqueUsernames(users)
    }

    constructor ()
      ensures Valid()
      ensures users == map[] && articles == map[]
      ensures nextUserId == 1 && nextArticleId == 1
    {
      users, articles := map[], map[];
      nextUserId, nextArticleId := 1, 1;
    }

    /** The seed block: inserts admin/admin with role admin unless a user named admin exists. */
    method SeedAdmin(salt: nat)
      requires Valid()
      modifies this
      ensures Valid()
      ensures old(FindUser(users, AdminName)).Some? ==> unchanged(this)
      ensures old(FindUser(users, AdminName)).None? ==>
        users == old(users)[old(nextUserId) := UserRow(Some(AdminName), Hash(AdminPassword, salt), Admin)]
        && nextUserId == old(nextUserId) + 1
        && articles == old(articles) && nextArticleId == old(nextArticleId)
      ensures FindUser(users, AdminName).Some?
    {
      if FindUser(users, AdminName).None? {
        var id := nextUserId;
        users := users[id := UserRow(Some(AdminName), Hash(AdminPassword, salt), Admin)];
        nextUserId := nextUserId + 1;
        assert users[id].username == Some(AdminName);
      }
    }

    /** POST /register. No shape checks: a missing password makes `bcrypt.hash`
        throw (500), a taken username fails the insert (400). */
    method Register(username: Option<string>, password: Option<string>, salt: nat) returns (r: Response)
      requires Valid()
      modifies this
      ensures Valid()
      ensures articles == old(articles) && nextArticleId == old(nextArticleId)
      ensures password.None? ==> r == Reply(500, Empty) && unchanged(this)
      ensures password.Some? && username.Some? && old(FindUser(users, username.value)).Some? ==>
        r == Reply(400, Error(UsernameExists)) && unchanged(this)
      ensures password.Some? && (username.None? || old(FindUser(users, username.value)).None?) ==>
        var id := old(nextUserId);
        id !in old(users)
        && users == old(users)[id := UserRow(username, Hash(password.value, salt), User)]
        && nextUserId == id + 1
        && r == Reply(201, Message(UserCreated))
    {
      if password.None? {
        return Reply(500, Empty);
      }
      var hash := Hash(password.value, salt);
      if username.Some? && FindUser(users, username.value).Some? {
        return Reply(400, Error(UsernameExists));
      }
      var id := nextUserId;
      users := users[id := UserRow(username, hash, User)];
      nextUserId := nextUserId + 1;
      r := Reply(201, Message(UserCreated));
    }

    /** POST /login. It changes nothing: the token carries the login. An unknown
        name is a 400, a wrong password a plain 200 "Not Allowed"; a missing
        password makes `bcrypt.compare` reject unhandled, so no reply is sent. */
    method Login(username: Option<string>, password: Option<string>) returns (r: Response)
      requires Valid()
      ensures username.None? || FindUser(users, username.value).None? ==> r == Reply(400, Text(UserNotFound))
      ensures username.Some? && FindUser(users, username.value).Some? ==>
        var id := FindUser(users, username.value).value;
        var c := Principal(id, username.value, users[id].role);
        if password.None? then r == NoReply
        else if Verify(password.value, users[id].password) then
          r == Reply(200, TokenReply(Jwt.Sign(c, SecretKey), c.username, c.role, c.id))
        else
          r == Reply(200, Text(NotAllowed))
    {
      if username.None? {
        return Reply(400, Text(UserNotFound));
      }
      var found := FindUser(users, username.value);
      if found.None? {
        return Reply(400, Text(UserNotFound));
      }
      var user := users[found.value];
      if password.None? {
        return NoReply;
      }
      if Verify(password.value, user.password) {
        var claims := Principal(found.value, user.username.value, user.role);
        var token := Jwt.Sign(claims, SecretKey);
        return Reply(200, TokenReply(token, claims.username, claims.role, claims.id));
      }
      r := Reply(200, Text(NotAllowed));
    }

    /** POST /articles: the owner id and username come from the token's claims. */
    method PostArticle(header: Option<string>, url: Option<string>) returns (r: Response)
      requires Valid()
      modifies this
      ensures Valid()
      ensures users == old(users) && nextUserId == old(nextUserId)
      ensures Authenticate(header).Rejected? ==>
        var s := Authenticate(header).status;
        r == Reply(s, Text(StatusText(s))) && unchanged(this)
      ensures Authenticate(header).Authenticated? ==>
        var p := Authenticate(header).principal;
        var id := old(nextArticleId);
        id !in old(articles)
        && articles == old(articles)[id := ArticleRow(url, p.id, p.username)]
        && nextArticleId == id + 1
        && r == Reply(200, ArticleEcho(id, url, p.id, p.username))
    {
      var auth := Authenticate(header);
      if auth.Rejected? {
        return Reply(auth.status, Text(StatusText(auth.status)));
      }
      var p := auth.principal;
      var id := nextArticleId;
      articles := articles[id := ArticleRow(url, p.id, p.username)];
      nextArticleId := nextArticleId + 1;
      r := Reply(200, ArticleEcho(id, url, p.id, p.username));
    }

    /** DELETE /articles/:id: existence is checked before permission. */
    method DeleteArticle(header: Option<string>, articleId: Id) returns (r: Response)
      requires Valid()
      modifies this
      ensures Valid()
      ensures users == old(users) && nextUserId == old(nextUserId) && nextArticleId == old(nextArticleId)
      ensures Authenticate(header).Rejected? ==>
        var s := Authenticate(header).status;
        r == Reply(s, Text(StatusText(s))) && articles == old(articles)
      ensures Authenticate(header).Authenticated? && articleId !in old(articles) ==>
        r == Reply(404, Error(ArticleNotFound)) && articles == old(articles)
      ensures Authenticate(header).Authenticated? && articleId in old(articles) ==>
        if CanDelete(Authenticate(header).principal, old(articles)[articleId].userId) then
          articles == old(articles) - {articleId} && r == Reply(200, Message(Deleted))
        else
          articles == old(articles) && r == Reply(403, Error(Unauthorized))
    {
      var auth := Authenticate(header);
      if auth.Rejected? {
        return Reply(auth.status, Text(StatusText(auth.status)));
      }
      if articleId !in articles {
        return Reply(404, Error(ArticleNotFound));
      }
      var user := auth.principal;
      if user.role == Admin || user.id == articles[articleId].userId {
        articles := articles - {articleId};
        r := Reply(200, Message(Deleted));
      } else {
        r := Reply(403, Error(Unauthorized));
      }
    }
  }

  const AdminRow := UserRow(Some(AdminName), Hash(AdminPassword, 0), Admin)
  const AliceRow := UserRow(Some("alice"), Hash("password123", 1), User)
  const BobRow := UserRow(Some("bob"), Hash("password123", 2), User)
  const Alice := Principal(2, "alice", User)
  const Bob := Principal(3, "bob", User)
  const AdminClaims := Principal(1, AdminName, Admin)

  /** Startup, then alice and bob register. */
  method AliceAndBob() returns (s: Server)
    ensures fresh(s) && s.Valid()
    ensures s.users == map[1 := AdminRow, 2 := AliceRow, 3 := BobRow]
    ensures s.articles == map[] && s.nextUserId == 4 && s.nextArticleId == 1
  {
    s := new Server();
    s.SeedAdmin(0);
    assert FindUser(s.users, "alice").None?;
    var a := s.Register(Some("alice"), Some("password123"), 1);
    assert FindUser(s.users, "bob").None?;
    var b := s.Register(Some("bob"), Some("password123"), 2);
  }

  /** Logging in issues a token for exactly the stored claims; an unknown name
      and a wrong password fail differently. */
  method Logins() returns (alice: Response, unknown: Response, wrong: Response)
    ensures alice == Reply(200, TokenReply(Jwt.Sign(Alice, SecretKey), "alice", User, 2))
    ensures Jwt.Decode(alice.body.token, SecretKey) == Some(Alice)
    ensures unknown == Reply(400, Text(UserNotFound))
    ensures wrong == Reply(200, Text(NotAllowed))
  {
    var s := AliceAndBob();
    assert s.users[2].username == Some("alice") && s.users[1].username != Some("alice") && s.users[3].username != Some("alice");
    assert FindUser(s.users, "alice") == Some(2);
    alice := s.Login(Some("alice"), Some("password123"));
    Jwt.TokenRoundTrip(Alice, SecretKey);
    assert FindUser(s.users, "carol").None?;
    unknown := s.Login(Some("carol"), Some("password123"));
    wrong := s.Login(Some("alice"), Some("wrong-password"));
  }

  /** A token without the field separators of a signed one is refused with 403. */
  lemma UnsignedTokenRejected(scheme: string, token: string)
    requires ' ' !in scheme && ' ' !in token && '.' !in token && token != ""
    ensures Authenticate(Some(scheme + " " + token)) == Rejected(403)
  {
    BearerOf(scheme, token);
    Strings.SplitJoin([token], '.');
  }

  /** Sends `token` as a bearer token. */
  function BearerHeader(token: string): Option<string> {
    Some("Bearer " + token)
  }

  /** Startup, two registrations, then alice logs in and posts https://example.com with her token. */
  method AlicePosts() returns (s: Server, posted: Response)
    ensures fresh(s) && s.Valid()
    ensures s.users == map[1 := AdminRow, 2 := AliceRow, 3 := BobRow]
    ensures s.articles == map[1 := ArticleRow(Some("https://example.com"), 2, "alice")]
    ensures posted == Reply(200, ArticleEcho(1, Some("https://example.com"), 2, "alice"))
  {
    s := AliceAndBob();
    assert s.users[2].username == Some("alice") && s.users[1].username != Some("alice") && s.users[3].username != Some("alice");
    assert FindUser(s.users, "alice") == Some(2);
    var login := s.Login(Some("alice"), Some("password123"));
    IssuedTokenAuthenticates(Alice);
    posted := s.PostArticle(BearerHeader(login.body.token), Some("https://example.com"));
  }

  /** Bob logs in and his token may not delete alice's article: 403, and the article stays. */
  method BobRefused() returns (login: Response, bob: Response, kept: bool)
    ensures login == Reply(200, TokenReply(Jwt.Sign(Bob, SecretKey), "bob", User, 3))
    ensures bob == Reply(403, Error(Unauthorized)) && kept
  {
    var s, posted := AlicePosts();
    assert s.users[3].username == Some("bob") && s.users[1].username != Some("bob") && s.users[2].username != Some("bob");
    assert FindUser(s.users, "bob") == Some(3);
    login := s.Login(Some("bob"), Some("password123"));
    IssuedTokenAuthenticates(Bob);
    bob := s.DeleteArticle(BearerHeader(login.body.token), 1);
    kept := 1 in s.articles;
  }

  /** A header without a second word is refused with 401, and the article stays. */
  method NoTokenRefused() returns (anonymous: Response, kept: bool)
    ensures anonymous == Reply(401, Text("Unauthorized")) && kept
  {
    var s, posted := AlicePosts();
    OneWordHeader("Bearer");
    anonymous := s.DeleteArticle(Some("Bearer"), 1);
    kept := 1 in s.articles;
  }

  /** A token that does not verify is refused with 403, and the article stays. */
  method BadTokenRefused() returns (forged: Response, kept: bool)
    ensures forged == Reply(403, Text("Forbidden")) && kept
  {
    var s, posted := AlicePosts();
    UnsignedTokenRejected("Bearer", "forged");
    forged := s.DeleteArticle(Some("Bearer" + " " + "forged"), 1);
    kept := 1 in s.articles;
  }

  /** The admin logs in with admin/admin and that token deletes alice's article. */
  method AdminDeletes() returns (login: Response, admin: Response, remaining: bool)
    ensures login == Reply(200, TokenReply(Jwt.Sign(AdminClaims, SecretKey), AdminName, Admin, 1))
    ensures admin == Reply(200, Message(Deleted)) && !remaining
  {
    var s, posted := AlicePosts();
    assert s.users[1].username == Some(AdminName) && s.users[2].username != Some(AdminName) && s.users[3].username != Some(AdminName);
    assert FindUser(s.users, AdminName) == Some(1);
    login := s.Login(Some(AdminName), Some(AdminPassword));
    IssuedTokenAuthenticates(AdminClaims);
    admin := s.DeleteArticle(BearerHeader(login.body.token), 1);
    remaining := 1 in s.articles;
  }
}
