# FlaskArticleApp request handlers in Dafny

This project models the request-handler layer of a small multi-user blogging
site (`main.py`). Visitors list and read articles. Registered users log in and
add, edit and delete articles from a dashboard. The model treats the site as one
state machine, class `Blog.Site`. Its fields are:

- the `users` and `articles` tables, each a sequence of rows keyed by an
  auto-increment id, with the counter that hands out the next id;
- the client's session: `loggedIn` (whether `logged_in` is in the session) and
  `sessionUser` (`session['username']`).

Every route except Home and About is a method on `Site`. Routes that take a form read the HTTP verb and the submitted form.
It updates the tables the way the handler's INSERT, UPDATE and DELETE statements
do, and the session the way its assignments and `session.clear()` do. It
returns the response: a template rendered with what it is given, or a
redirect, each with the `(message, category)` flash the handler emits.

Modules:

- `Forms` (`forms.dfy`): the two WTForms schemas, `RegisterForm` and
  `AddArticleForm`, as error sets and validity predicates.
- `Credentials` (`credentials.dfy`): the password hasher as a pair of functions
  handed to the site.
- `Table` (`table.dfy`): a table of rows and the SQL statements the handlers run
  on it.
- `Blog` (`blog.dfy`): users, articles, responses and the `Site` class with one
  method per route.
- `Scenarios` (`scenarios.dfy`): clients that chain routes. They are proved from
  the routes' contracts alone.

The login gate (`is_logged_in`) is a guard clause at the top of each protected
method: AddArticle, EditArticle, DeleteArticle and Dashboard. Each of these
promises the same thing when `logged_in` is absent. The handler body does not
run, nothing in the site changes (`unchanged(this)`), and the answer is
`Denied`: a redirect to the login page with a "danger" flash. When `logged_in`
is present, the method's answer is the body's own.

The model keeps these behaviours of `main.py` as written:

- Edit and delete do not check that the session user wrote the article. Any
  logged-in user may edit or delete any id.
- EditArticle validates the stored title and body when the id exists
  (`Prefill`). The submission itself is not validated. The UPDATE then writes
  the raw submission.
- The duplicate-username flash reads "Userame already exists", and the delete
  flash reads "Artical deleted successfully", as in `main.py`.

## Model

| member | source | states |
|---|---|---|
| `Forms.RegisterValidIff` | main.py:58-68 | a registration validates iff 1 ≤ \|name\| ≤ 100, 4 ≤ \|username\| ≤ 25, 6 ≤ \|email\| ≤ 50, the password holds a non-whitespace character and has 6 to 50 characters, and it equals the confirmation |
| `Forms.RegisterErrorsPerField` | main.py:60-68 | each field is checked on its own text alone (the password together with `confirm`), so every failing field is reported |
| `Forms.BlankPasswordRejected` | main.py:63-64 | a password of whitespace alone fails `data_required`, whatever its length |
| `Forms.ArticleValidIff` | main.py:149-152 | an article validates iff 4 ≤ \|title\| ≤ 100 and \|body\| ≥ 30 |
| `Table.Insert` | main.py:166-168 | INSERT keeps every existing row and adds the row under the counter's id; the auto-increment discipline (ids increasing, all below the counter) carries over to the advanced counter |
| `Table.Lookup` | main.py:49-51 | SELECT by id with fetchone finds nothing iff no row has that id, and otherwise returns a stored row with that id |
| `Table.Where` | main.py:228-231 | SELECT WHERE with fetchall returns exactly the stored rows whose data satisfy the condition |
| `Table.First` | main.py:108-111 | SELECT WHERE with fetchone finds nothing iff no row satisfies the condition, and otherwise returns a stored row that does |
| `Table.Delete` | main.py:213-214 | DELETE by id keeps exactly the rows with another id |
| `Table.Update` | main.py:195-196 | UPDATE by id rewrites exactly the rows with that id, keeps their ids and leaves every other row as it was |
| `Table.WhereKeyed` | main.py:228-231 | a filtered selection keeps the table's id order |
| `Table.DeleteKeyed` | main.py:213-214 | DELETE keeps the auto-increment discipline |
| `Table.UpdateKeyed` | main.py:195-196 | UPDATE keeps the auto-increment discipline |
| `Table.DeleteAbsent` | main.py:213-214 | deleting an id no row has leaves the table as it was |
| `Table.DeleteIdempotent` | main.py:210-219 | deleting the same id twice is deleting it once |
| `Table.InsertThenLookup` | main.py:166-168 | after INSERT, selecting the new id returns the inserted data verbatim, and every other id reads as before |
| `Table.LookupAfterDelete` | main.py:213-214 | after DELETE the id is absent and every other id reads as before |
| `Table.LookupAfterUpdate` | main.py:195-196 | after UPDATE the id reads as the rewritten row, an absent id stays absent, and every other id reads as before |
| `Table.UpdateAbsent` | main.py:183-196 | updating an id no row has changes nothing |
| `Blog.FindUser` | main.py:82-84 | the username lookup finds nothing iff the username is not taken, and otherwise returns a stored user with that username |
| `Blog.InsertUserKeepsUnique` | main.py:82-92 | inserting a user whose username is not taken keeps usernames unique |
| `Blog.CheckCredentials` | main.py:107-123 | the login check ends in "Invalid user" iff no user has that username |
| `Blog.CheckCredentialsCorrect` | main.py:110-120 | with unique usernames and the user present, the login succeeds iff the password verifies against that user's digest, and ends in "Invalid password" iff it does not |
| `Blog.EditValidatesStoredRow` | main.py:183-190 | when the id exists, edit validation passes or fails the same way whatever is submitted, and it passes iff the stored title and body satisfy the article bounds |
| `Blog.InvalidEditBlocksLaterEdits` | main.py:183-196 | once an edit has stored a title and body outside the article bounds, every later edit of that id fails validation whatever is submitted |
| `Blog.Site.Register` | main.py:71-97 | a GET or an invalid POST changes nothing and re-renders the form with the failing fields; a valid POST with a taken username changes nothing and re-renders with a "danger" flash; otherwise exactly one row (name, username, email, hashed password) is appended under the next id, a success flash is emitted and the client goes home; unique usernames are preserved in every case |
| `Blog.Site.Login` | main.py:100-126 | a GET renders the page and changes nothing; a POST ends in exactly one of: session set to (logged_in, username) with a redirect to the dashboard, "Invalid password" with the session unchanged, or "Invalid user" with the session unchanged; the tables never change |
| `Blog.Site.Logout` | main.py:129-134 | the session is cleared, the tables are untouched, and the client is sent to login with a success flash |
| `Blog.Site.AddArticle` | main.py:155-173 | gate: without a login nothing changes and the answer is `Denied`; a valid POST appends exactly one article under the next id, with the session user as author and the title and body verbatim, and leaves existing articles, users and session unchanged; otherwise it changes nothing and re-renders the form |
| `Blog.Site.EditArticle` | main.py:176-204 | gate as above; the form validated and shown is `Prefill`: the submission, with the stored title and body in its place when the id exists (main.py:185-188); when it validates on a POST, only the title and body of article `id` become the submitted ones (`Revise`, the SET clause at main.py:195), and an absent id changes nothing; otherwise nothing changes and the prefilled form is shown |
| `Blog.Site.DeleteArticle` | main.py:207-219 | gate as above; otherwise removes exactly the rows with that id, keeps users and session, and redirects to the dashboard with a success flash |
| `Blog.Site.Dashboard` | main.py:222-235 | gate as above; otherwise lists exactly the session user's articles, in table order, or shows the "add your first article" message iff there are none |
| `Blog.Site.ListArticles` | main.py:31-42 | lists every article iff there is one, and otherwise shows "No articles found" |
| `Blog.Site.ShowArticle` | main.py:45-55 | shows a stored article with the requested id iff one exists, and otherwise shows "Invalid article ID" |
| `Scenarios.AddThenRead` | main.py:158-172 | a valid add followed by reading the new id returns the session user's article with the submitted title and body |
| `Scenarios.DeleteTwice` | main.py:210-219 | two deletes of one id leave the articles as one delete does, and both answer alike |
| `Scenarios.RegisterThenLogin` | main.py:73-117 | with a hasher for which every password verifies against its own digest, registering and then logging in with the same password starts that user's session |
| `Scenarios.LogoutThenDashboard` | main.py:131-146 | after logout the dashboard is refused |
| `Scenarios.RegisterAnn` | main.py:73-97 | registering Ann (`ann1`, `secret1`) on an empty store leaves exactly one `users` row, with username `ann1`, emits a success flash and redirects home |
| `Scenarios.WrongPassword` | main.py:102-120 | logging in as `ann1` with a password that does not verify renders "Invalid password" and leaves the session unset |
| `Scenarios.EmptyDashboard` | main.py:225-235 | a logged-in user with no articles gets the "add your first article" message |
| `Scenarios.AnonymousAddArticle` | main.py:138-160 | an anonymous request for the add-article page is sent to login with a "danger" flash, and no article is stored |

## Left out

- The Home and About routes (main.py:19-28): they render a fixed template and touch no state.
- Flask routing, `render_template`, `redirect`, `url_for` and HTML. A response is a page name with the values handed to the template, or a redirect target.
- The MySQL connection, cursors, `commit`, `close` and configuration (main.py:9-16). The tables are sequences in the model. A database failure is a fatal error in the source and is not modelled.
- `sha256_crypt` (main.py:80, 112). It is the `Credentials.Hasher` pair of functions. The random salt of `encrypt` is an argument of `Register`. The only law assumed of it, and only where a scenario needs it, is that a password verifies against its own digest. `Scenarios.WrongPassword` also takes as its premise that `secret2` does not verify against the digest of `secret1`. The digest is computed before the duplicate-username check; in that case it goes unused, so nothing observable follows.
- Flash display and expiry. Each response records the one flash its handler emits. The source keeps flashes in the session, and `session.clear()` also drops pending ones; that is not modelled.
- The URL id is a string that MySQL converts to a number in `WHERE id=%s`. The model takes the id as an integer.
- Missing form keys. A Login POST without `username` or `password` (main.py:104-105), and an EditArticle POST for a stored id without `title` or `body` (main.py:191-192), read `request.form[...]` and make Flask answer 400. The model's forms always carry every field. Register and AddArticle read through WTForms, which treats a missing field as empty; the model covers that as an empty string.
- WTForms internals. Length counts the characters of the submitted string. `data_required` refuses text made only of the ASCII characters that Python's `str.strip()` removes (tab, line feed, vertical tab, form feed, carriage return, U+001C to U+001F and space); the non-ASCII Unicode whitespace that `strip()` also removes is not modelled. Field filters and CSRF are not modelled.
- SELECT without ORDER BY has no fixed order. The model returns rows in storage (insertion) order.
- The secret key, `app.run` (main.py:238-240), the signed-cookie transport of the session, and concurrent requests. The model holds one client's session and handles one request at a time.
- Collation. The username lookups (main.py:83, 109) and the author filter (main.py:229) compare strings character by character, as under a binary collation. MySQL's default collations ignore letter case, and depending on the version accents or trailing spaces. Under them, registering `ANN1` when `ann1` exists is refused, and logging in as `ANN1` succeeds; the model adds a second user and answers "Invalid user". `Blog.FindUser` and `Blog.Site.Dashboard` assume a binary collation.
- Auto-increment counters start at 1, as MySQL's do. The schema itself is not part of this model.
