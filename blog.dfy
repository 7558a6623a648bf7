/**
 * The request handlers of main.py as one state machine. The `users` and
 * `articles` tables, their auto-increment counters and the client's session
 * (`logged_in`, `username`) are fields of a `Site`; each route is a method that
 * reads the request's verb and form, updates those fields the way the handler's
 * SQL statements and session assignments do, and returns the response it renders
 * or redirects to, together with the flash message it emits.
 */
module Blog {
  import opened Wrappers
  import opened Forms
  import opened Credentials
  import opened Table

  /** A `users` row without its id: name, username, email and password digest. */
  datatype User = User(name: string, username: string, email: string, password: Digest)

  /** An `articles` row without its id. */
  datatype Article = Article(author: string, title: string, body: string)

  datatype Verb = GET | POST

  datatype Category = Success | Danger

  /** A `flash(message, category)` call. */
  datatype Flash = Flash(message: string, category: Category)

  /** The templates rendered and the routes redirected to. */
  datatype Page = HomePage | ArticlesPage | ArticlePage | RegisterPage | LoginPage
                | DashboardPage | AddArticlePage | EditArticlePage

  /** What a template is given. */
  datatype View =
    | Plain
    | Listing(rows: seq<Row<Article>>)
    | Detail(row: Row<Article>)
    | Message(msg: string)
    | Error(error: string)
    | RegisterView(registration: RegisterForm, registerErrors: set<RegisterField>)
    | ArticleView(article: ArticleForm, articleErrors: set<ArticleField>)

  datatype Response =
    | Render(page: Page, view: View, flash: Option<Flash>)
    | Redirect(target: Page, flash: Option<Flash>)

  /** What the `is_logged_in` wrapper answers when `logged_in` is not in the session. */
  const Denied: Response := Redirect(LoginPage, Some(Flash("You have to be logged in to view this page", Danger)))

  /** No two users share a username. */
  ghost predicate UniqueUsernames(users: seq<Row<User>>) {
    forall i, j :: 0 <= i < j < |users| ==> users[i].data.username != users[j].data.username
  }

  ghost predicate UsernameTaken(users: seq<Row<User>>, username: string) {
    exists i :: 0 <= i < |users| && users[i].data.username == username
  }

  /** `SELECT * FROM users WHERE username=%s` followed by `fetchone()`. */
  function FindUser(users: seq<Row<User>>, username: string): (r: Option<Row<User>>)
    ensures r.None? <==> !UsernameTaken(users, username)
    ensures r.Some? ==> r.value in users && r.value.data.username == username
  {
    First(users, (u: User) => u.username == username)
  }

  /** Inserting a user whose username is not taken keeps usernames unique. */
  lemma InsertUserKeepsUnique(users: seq<Row<User>>, next: nat, user: User)
    requires UniqueUsernames(users)
    requires !UsernameTaken(users, user.username)
    ensures UniqueUsernames(Insert(users, next, user))
  {
  }

  /** The three ends of a login POST. */
  datatype LoginResult = Authenticated | InvalidPassword | InvalidUser

  /** The credential check of the login handler: find the user, then verify the password. */
  function CheckCredentials(users: seq<Row<User>>, verify: (string, Digest) -> bool, username: string, password: string): (r: LoginResult)
    ensures r == InvalidUser <==> !UsernameTaken(users, username)
  {
    match FindUser(users, username)
    case None => InvalidUser
    case Some(row) => if verify(password, row.data.password) then Authenticated else InvalidPassword
  }

  /**
   * With unique usernames, a login succeeds exactly when the user exists and the
   * password verifies against that user's digest, and reports a wrong password
   * exactly when the user exists and it does not.
   */
  lemma CheckCredentialsCorrect(users: seq<Row<User>>, verify: (string, Digest) -> bool, username: string, password: string, i: nat)
    requires UniqueUsernames(users)
    requires i < |users| && users[i].data.username == username
    ensures CheckCredentials(users, verify, username, password) == Authenticated <==> verify(password, users[i].data.password)
    ensures CheckCredentials(users, verify, username, password) == InvalidPassword <==> !verify(password, users[i].data.password)
  {
  }

  /**
   * The form the edit handler validates and shows: the submission, except that
   * when the id names a stored article its title and body replace the submitted ones.
   */
  function Prefill(stored: Option<Row<Article>>, submitted: ArticleForm): ArticleForm {
    match stored
    case Some(row) => ArticleForm(row.data.title, row.data.body)
    case None => submitted
  }

  /**
   * When the id names a stored article, the edit handler's validation judges the
   * stored title and body and ignores the submission: an invalid submission
   * passes whenever the stored article is valid.
   */
  lemma EditValidatesStoredRow(articles: seq<Row<Article>>, id: int, submitted: ArticleForm, other: ArticleForm)
    requires Lookup(articles, id).Some?
    ensures ArticleValid(Prefill(Lookup(articles, id), submitted)) == ArticleValid(Prefill(Lookup(articles, id), other))
    ensures ArticleValid(Prefill(Lookup(articles, id), submitted)) <==>
      var stored := Lookup(articles, id).value.data;
      4 <= |stored.title| <= 100 && 30 <= |stored.body|
  {
  }

  /**
   * Once an edit has stored a title and body that break the article bounds,
   * every later edit of that id fails validation, whatever is submitted.
   */
  lemma {:induction false} InvalidEditBlocksLaterEdits(articles: seq<Row<Article>>, id: int, title: string, body: string, submitted: ArticleForm)
    requires Lookup(articles, id).Some?
    requires !ArticleValid(ArticleForm(title, body))
    ensures !ArticleValid(Prefill(Lookup(Update(articles, id, Revise(title, body)), id), submitted))
  {
    LookupAfterUpdate(articles, id, Revise(title, body), id);
  }

  /** `UPDATE articles SET title=%s, body=%s`: the author is kept. */
  function Revise(title: string, body: string): Article -> Article {
    (a: Article) => a.(title := title, body := body)
  }

  class Site {
    const hasher: Hasher
    var users: seq<Row<User>>
    var nextUserId: nat
    var articles: seq<Row<Article>>
    var nextArticleId: nat
    /** `'logged_in' in session` */
    var loggedIn: bool
    /** `session['username']`, absent when `None` */
    var sessionUser: Option<string>

    ghost predicate Valid()
      reads this
    {
      && KeyedBelow(users, nextUserId)
      && UniqueUsernames(users)
      && KeyedBelow(articles, nextArticleId)
      && (loggedIn <==> sessionUser.Some?)
    }

    /** An empty database and a fresh client without a session. */
    constructor (hasher: Hasher)
      ensures Valid()
      ensures this.hasher == hasher
      ensures users == [] && articles == [] && !loggedIn
    {
      this.hasher := hasher;
      users, nextUserId := [], 1;
      articles, nextArticleId := [], 1;
      loggedIn, sessionUser := false, None;
    }

    /** Route `/register`. */
    method Register(verb: Verb, form: RegisterForm, salt: Salt) returns (resp: Response)
      requires Valid()
      modifies this
      ensures Valid()
      ensures articles == old(articles) && nextArticleId == old(nextArticleId)
      ensures loggedIn == old(loggedIn) && sessionUser == old(sessionUser)
      ensures !(verb == POST && RegisterValid(form)) ==>
        && users == old(users) && nextUserId == old(nextUserId)
        && resp == Render(RegisterPage, RegisterView(form, if verb == POST then RegisterErrors(form) else {}), None)
      ensures verb == POST && RegisterValid(form) && UsernameTaken(old(users), form.username) ==>
        && users == old(users) && nextUserId == old(nextUserId)
        && resp == Render(RegisterPage, RegisterView(form, {}), Some(Flash("Userame already exists", Danger)))
      ensures verb == POST && RegisterValid(form) && !UsernameTaken(old(users), form.username) ==>
        && users == old(users) + [Row(old(nextUserId), User(form.name, form.username, form.email, hasher.hash(form.password, salt)))]
        && nextUserId == old(nextUserId) + 1
        && resp == Redirect(HomePage, Some(Flash("You are now registered and can login", Success)))
    {
      if verb == POST && RegisterValid(form) {
        var digest := hasher.hash(form.password, salt);
        if FindUser(users, form.username).Some? {
          resp := Render(RegisterPage, RegisterView(form, {}), Some(Flash("Userame already exists", Danger)));
          return;
        }
        var user := User(form.name, form.username, form.email, digest);
        InsertUserKeepsUnique(users, nextUserId, user);
        users := Insert(users, nextUserId, user);
        nextUserId := nextUserId + 1;
        resp := Redirect(HomePage, Some(Flash("You are now registered and can login", Success)));
        return;
      }
      resp := Render(RegisterPage, RegisterView(form, if verb == POST then RegisterErrors(form) else {}), None);
    }

    /** Route `/login`. */
    method Login(verb: Verb, username: string, password: string) returns (resp: Response)
      requires Valid()
      modifies this
      ensures Valid()
      ensures users == old(users) && nextUserId == old(nextUserId)
      ensures articles == old(articles) && nextArticleId == old(nextArticleId)
      ensures verb == GET ==>
        && loggedIn == old(loggedIn) && sessionUser == old(sessionUser)
        && resp == Render(LoginPage, Plain, None)
      ensures verb == POST ==>
        match CheckCredentials(users, hasher.verify, username, password)
        case Authenticated =>
          && loggedIn && sessionUser == Some(username)
          && resp == Redirect(DashboardPage, Some(Flash("You are now logged in", Success)))
        case InvalidPassword =>
          && loggedIn == old(loggedIn) && sessionUser == old(sessionUser)
          && resp == Render(LoginPage, Error("Invalid password"), None)
        case InvalidUser =>
          && loggedIn == old(loggedIn) && sessionUser == old(sessionUser)
          && resp == Render(LoginPage, Error("Invalid user"), None)
    {
      if verb == POST {
        match FindUser(users, username) {
          case Some(row) =>
            if hasher.verify(password, row.data.password) {
              loggedIn := true;
              sessionUser := Some(username);
              resp := Redirect(DashboardPage, Some(Flash("You are now logged in", Success)));
            } else {
              resp := Render(LoginPage, Error("Invalid password"), None);
            }
          case None =>
            resp := Render(LoginPage, Error("Invalid user"), None);
        }
        return;
      }
      resp := Render(LoginPage, Plain, None);
    }

    /** Route `/logout`: clears the session whether or not it was set. */
    method Logout() returns (resp: Response)
      requires Valid()
      modifies this
      ensures Valid()
      ensures users == old(users) && nextUserId == old(nextUserId)
      ensures articles == old(articles) && nextArticleId == old(nextArticleId)
      ensures !loggedIn && sessionUser == None
      ensures resp == Redirect(LoginPage, Some(Flash("You have successfully logged out", Success)))
    {
      loggedIn, sessionUser := false, None;
      resp := Redirect(LoginPage, Some(Flash("You have successfully logged out", Success)));
    }

    /** Route `/add_article`, behind the login gate. */
    method AddArticle(verb: Verb, form: ArticleForm) returns (resp: Response)
      requires Valid()
      modifies this
      ensures Valid()
      ensures !old(loggedIn) ==> unchanged(this) && resp == Denied
      ensures users == old(users) && nextUserId == old(nextUserId)
      ensures loggedIn == old(loggedIn) && sessionUser == old(sessionUser)
      ensures old(loggedIn) && verb == POST && ArticleValid(form) ==>
        && articles == old(articles) + [Row(old(nextArticleId), Article(sessionUser.value, form.title, form.body))]
        && nextArticleId == old(nextArticleId) + 1
        && resp == Redirect(DashboardPage, Some(Flash("Article has been added successfully", Success)))
      ensures old(loggedIn) && !(verb == POST && ArticleValid(form)) ==>
        && articles == old(articles) && nextArticleId == old(nextArticleId)
        && resp == Render(AddArticlePage, ArticleView(form, if verb == POST then ArticleErrors(form) else {}), None)
    {
      if !loggedIn {
        resp := Denied;
        return;
      }
      if verb == POST && ArticleValid(form) {
        articles := Insert(articles, nextArticleId, Article(sessionUser.value, form.title, form.body));
        nextArticleId := nextArticleId + 1;
        resp := Redirect(DashboardPage, Some(Flash("Article has been added successfully", Success)));
        return;
      }
      resp := Render(AddArticlePage, ArticleView(form, if verb == POST then ArticleErrors(form) else {}), None);
    }

    /**
     * Route `/edit_article/<id>`, behind the login gate. A stored article's title
     * and body overwrite the form before validation, and the UPDATE writes the
     * raw submission. Any logged-in user may edit any id.
     */
    method EditArticle(id: int, verb: Verb, form: ArticleForm) returns (resp: Response)
      requires Valid()
      modifies this
      ensures Valid()
      ensures !old(loggedIn) ==> unchanged(this) && resp == Denied
      ensures users == old(users) && nextUserId == old(nextUserId) && nextArticleId == old(nextArticleId)
      ensures loggedIn == old(loggedIn) && sessionUser == old(sessionUser)
      ensures old(loggedIn) && verb == POST && ArticleValid(Prefill(Lookup(old(articles), id), form)) ==>
        && articles == Update(old(articles), id, Revise(form.title, form.body))
        && resp == Redirect(DashboardPage, Some(Flash("Article updated", Success)))
      ensures old(loggedIn) && !(verb == POST && ArticleValid(Prefill(Lookup(old(articles), id), form))) ==>
        var shown := Prefill(Lookup(old(articles), id), form);
        && articles == old(articles)
        && resp == Render(EditArticlePage, ArticleView(shown, if verb == POST then ArticleErrors(shown) else {}), None)
    {
      if !loggedIn {
        resp := Denied;
        return;
      }
      var shown := Prefill(Lookup(articles, id), form);
      if verb == POST && ArticleValid(shown) {
        UpdateKeyed(articles, id, Revise(form.title, form.body), nextArticleId);
        articles := Update(articles, id, Revise(form.title, form.body));
        resp := Redirect(DashboardPage, Some(Flash("Article updated", Success)));
        return;
      }
      resp := Render(EditArticlePage, ArticleView(shown, if verb == POST then ArticleErrors(shown) else {}), None);
    }

    /** Route `/delete_article/<id>`, behind the login gate. Any logged-in user may delete any id. */
    method DeleteArticle(id: int) returns (resp: Response)
      requires Valid()
      modifies this
      ensures Valid()
      ensures !old(loggedIn) ==> unchanged(this) && resp == Denied
      ensures users == old(users) && nextUserId == old(nextUserId) && nextArticleId == old(nextArticleId)
      ensures loggedIn == old(loggedIn) && sessionUser == old(sessionUser)
      ensures old(loggedIn) ==>
        && articles == Delete(old(articles), id)
        && resp == Redirect(DashboardPage, Some(Flash("Artical deleted successfully", Success)))
    {
      if !loggedIn {
        resp := Denied;
        return;
      }
      DeleteKeyed(articles, id, nextArticleId);
      articles := Delete(articles, id);
      resp := Redirect(DashboardPage, Some(Flash("Artical deleted successfully", Success)));
    }

    /** Route `/dashboard`, behind the login gate: the session user's own articles. */
    method Dashboard() returns (resp: Response)
      requires Valid()
      ensures !loggedIn ==> resp == Denied
      ensures loggedIn ==> resp.Render? && resp.page == DashboardPage && resp.flash == None
      ensures loggedIn && resp.Render? ==> resp.view.Listing? || resp.view.Message?
      ensures loggedIn && resp.Render? ==>
        (resp.view.Listing? <==> exists i :: 0 <= i < |articles| && articles[i].data.author == sessionUser.value)
      ensures loggedIn && resp.Render? && resp.view.Listing? ==>
        && resp.view.rows != []
        && KeyedBelow(resp.view.rows, nextArticleId)
        && (forall i :: 0 <= i < |resp.view.rows| ==> resp.view.rows[i] in articles && resp.view.rows[i].data.author == sessionUser.value)
        && (forall i :: 0 <= i < |articles| && articles[i].data.author == sessionUser.value ==> articles[i] in resp.view.rows)
      ensures loggedIn && resp.Render? && resp.view.Message? ==>
        && resp.view.msg == "Click the button to add your first article"
        && forall i :: 0 <= i < |articles| ==> articles[i].data.author != sessionUser.value
    {
      if !loggedIn {
        resp := Denied;
        return;
      }
      var author := sessionUser.value;
      var rows := Where(articles, (a: Article) => a.author == author);
      if rows != [] {
        assert rows[0] in articles && rows[0].data.author == author;
        WhereKeyed(articles, (a: Article) => a.author == author, nextArticleId);
        resp := Render(DashboardPage, Listing(rows), None);
      } else {
        resp := Render(DashboardPage, Message("Click the button to add your first article"), None);
      }
    }

    /** Route `/articles`: every article, or the empty-state message. */
    method ListArticles() returns (resp: Response)
      requires Valid()
      ensures resp.Render? && resp.page == ArticlesPage && resp.flash == None
      ensures resp.view.Listing? <==> articles != []
      ensures resp.view.Listing? ==> resp.view.rows == articles
      ensures !resp.view.Listing? ==> resp.view == Message("No articles found")
    {
      if articles != [] {
        resp := Render(ArticlesPage, Listing(articles), None);
      } else {
        resp := Render(ArticlesPage, Message("No articles found"), None);
      }
    }

    /** Route `/article/<id>`: the article with that id, or an error. */
    method ShowArticle(id: int) returns (resp: Response)
      requires Valid()
      ensures resp.Render? && resp.page == ArticlePage && resp.flash == None
      ensures resp.view.Detail? <==> exists i :: 0 <= i < |articles| && articles[i].id == id
      ensures resp.view.Detail? ==> resp.view.row in articles && resp.view.row.id == id
      ensures !resp.view.Detail? ==> resp.view == Error("Invalid article ID")
    {
      match Lookup(articles, id)
      case Some(row) =>
        resp := Render(ArticlePage, Detail(row), None);
      case None =>
        resp := Render(ArticlePage, Error("Invalid article ID"), None);
    }
  }
}
