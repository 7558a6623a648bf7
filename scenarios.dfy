/**
 * Clients of `Blog.Site` that chain routes, proved from the routes' contracts
 * alone: reading back what was added, deleting twice, logging in after
 * registering, and the worked request sequences the site is meant to answer.
 */
module Scenarios {
  import opened Wrappers
  import opened Forms
  import opened Credentials
  import opened Table
  import opened Blog

  /** A valid AddArticle POST followed by a read of the new id returns the title and body verbatim. */
  method AddThenRead(site: Site, form: ArticleForm) returns (added: Response, read: Response)
    requires site.Valid() && site.loggedIn && ArticleValid(form)
    modifies site
    ensures site.Valid()
    ensures added == Redirect(DashboardPage, Some(Flash("Article has been added successfully", Success)))
    ensures read == Render(ArticlePage, Detail(Row(old(site.nextArticleId), Article(old(site.sessionUser).value, form.title, form.body))), None)
  {
    var id := site.nextArticleId;
    added := site.AddArticle(POST, form);
    assert site.articles[|site.articles| - 1].id == id;
    read := site.ShowArticle(id);
    var row := read.view.row;
    var k :| 0 <= k < |site.articles| && site.articles[k] == row;
    assert k == |site.articles| - 1;
  }

  /** Deleting the same id twice leaves the articles as one delete does, and answers alike. */
  method DeleteTwice(site: Site, id: int) returns (first: Response, second: Response)
    requires site.Valid() && site.loggedIn
    modifies site
    ensures site.Valid()
    ensures site.articles == Delete(old(site.articles), id)
    ensures site.users == old(site.users)
    ensures first == second
  {
    first := site.DeleteArticle(id);
    second := site.DeleteArticle(id);
    DeleteIdempotent(old(site.articles), id);
  }

  /** With a sound hasher, registering and then logging in with the same password starts a session. */
  method RegisterThenLogin(site: Site, form: RegisterForm, salt: Salt) returns (registered: Response, login: Response)
    requires site.Valid() && site.hasher.Sound()
    requires RegisterValid(form) && !UsernameTaken(site.users, form.username)
    modifies site
    ensures site.Valid()
    ensures registered == Redirect(HomePage, Some(Flash("You are now registered and can login", Success)))
    ensures login == Redirect(DashboardPage, Some(Flash("You are now logged in", Success)))
    ensures site.loggedIn && site.sessionUser == Some(form.username)
  {
    registered := site.Register(POST, form, salt);
    var last := |site.users| - 1;
    CheckCredentialsCorrect(site.users, site.hasher.verify, form.username, form.password, last);
    login := site.Login(POST, form.username, form.password);
  }

  /** After logging out, a protected route is refused and changes nothing. */
  method LogoutThenDashboard(site: Site) returns (out: Response, dash: Response)
    requires site.Valid()
    modifies site
    ensures site.Valid()
    ensures dash == Denied
    ensures !site.loggedIn
  {
    out := site.Logout();
    dash := site.Dashboard();
  }

  /** Registering Ann on an empty store: one `users` row with username `ann1`, a success flash, home. */
  method RegisterAnn(hasher: Hasher) returns (resp: Response, users: seq<Row<User>>)
    ensures resp == Redirect(HomePage, Some(Flash("You are now registered and can login", Success)))
    ensures |users| == 1 && users[0].data.username == "ann1"
  {
    var site := new Site(hasher);
    var form := RegisterForm("Ann", "ann1", "a@b.com", "secret1", "secret1");
    assert !IsSpace(form.password[0]);
    resp := site.Register(POST, form, 0);
    users := site.users;
  }

  /** A registered user who logs in with a wrong password sees "Invalid password" and stays logged out. */
  method WrongPassword(hasher: Hasher) returns (resp: Response, loggedIn: bool)
    requires !hasher.verify("secret2", hasher.hash("secret1", 0))
    ensures resp == Render(LoginPage, Error("Invalid password"), None)
    ensures !loggedIn
  {
    var site := new Site(hasher);
    var form := RegisterForm("Ann", "ann1", "a@b.com", "secret1", "secret1");
    assert !IsSpace(form.password[0]);
    var _ := site.Register(POST, form, 0);
    CheckCredentialsCorrect(site.users, hasher.verify, "ann1", "secret2", 0);
    resp := site.Login(POST, "ann1", "secret2");
    loggedIn := site.loggedIn;
  }

  /** A logged-in user who owns no articles gets the add-your-first-article prompt, not an error. */
  method EmptyDashboard(hasher: Hasher) returns (resp: Response)
    requires hasher.Sound()
    ensures resp == Render(DashboardPage, Message("Click the button to add your first article"), None)
  {
    var site := new Site(hasher);
    var form := RegisterForm("Ann", "ann1", "a@b.com", "secret1", "secret1");
    assert !IsSpace(form.password[0]);
    var _ := site.Register(POST, form, 0);
    CheckCredentialsCorrect(site.users, hasher.verify, "ann1", "secret1", 0);
    var _ := site.Login(POST, "ann1", "secret1");
    resp := site.Dashboard();
  }

  /** An anonymous client asking for the add-article form is sent to the login page. */
  method AnonymousAddArticle(hasher: Hasher, form: ArticleForm) returns (resp: Response, articles: seq<Row<Article>>)
    ensures resp == Redirect(LoginPage, Some(Flash("You have to be logged in to view this page", Danger)))
    ensures articles == []
  {
    var site := new Site(hasher);
    resp := site.AddArticle(GET, form);
    articles := site.articles;
  }
}
