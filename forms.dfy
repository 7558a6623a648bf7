/**
 * The two WTForms schemas of main.py as plain predicates on the submitted text.
 * A field's `length(min, max)` validator compares the number of characters of the
 * submitted string with its bounds; `data_required` asks for a non-empty string;
 * `equal_to('confirm')` compares the password with the confirmation field.
 * Every field is checked, so the error set names each failing field at once.
 */
module Forms {

  datatype RegisterForm = RegisterForm(name: string, username: string, email: string, password: string, confirm: string)

  /** The fields of `RegisterForm` that carry validators (`confirm` has none of its own). */
  datatype RegisterField = Name | Username | Email | Password

  datatype ArticleForm = ArticleForm(title: string, body: string)

  datatype ArticleField = Title | Body

  /** `validators.length(min=lo, max=hi)` */
  predicate Length(s: string, lo: nat, hi: nat) {
    lo <= |s| <= hi
  }

  /** `validators.length(min=lo)` with no upper bound */
  predicate MinLength(s: string, lo: nat) {
    lo <= |s|
  }

  /** The ASCII characters Python's `str.strip()` removes. */
  predicate IsSpace(c: char) {
    c == ' ' || c == '\t' || c == '\n' || c == '\r' || c == '\U{000B}' || c == '\U{000C}'
    || ('\U{001C}' <= c <= '\U{001F}')
  }

  /** `validators.data_required()`: the field holds something other than whitespace. */
  predicate DataRequired(s: string) {
    exists i :: 0 <= i < |s| && !IsSpace(s[i])
  }

  /** The fields of a registration submission whose validators fail. */
  function RegisterErrors(f: RegisterForm): set<RegisterField> {
    (if Length(f.name, 1, 100) then {} else {Name})
    + (if Length(f.username, 4, 25) then {} else {Username})
    + (if Length(f.email, 6, 50) then {} else {Email})
    + (if DataRequired(f.password) && Length(f.password, 6, 50) && f.password == f.confirm
       then {} else {Password})
  }

  /** `RegisterForm.validate()` */
  predicate RegisterValid(f: RegisterForm) {
    RegisterErrors(f) == {}
  }

  /** The fields of an article submission whose validators fail. */
  function ArticleErrors(f: ArticleForm): set<ArticleField> {
    (if Length(f.title, 4, 100) then {} else {Title})
    + (if MinLength(f.body, 30) then {} else {Body})
  }

  /** `AddArticleForm.validate()` */
  predicate ArticleValid(f: ArticleForm) {
    ArticleErrors(f) == {}
  }

  /** A registration is accepted exactly when every declared bound holds. */
  lemma RegisterValidIff(f: RegisterForm)
    ensures RegisterValid(f) <==>
      && 1 <= |f.name| <= 100
      && 4 <= |f.username| <= 25
      && 6 <= |f.email| <= 50
      && (exists i :: 0 <= i < |f.password| && !IsSpace(f.password[i]))
      && 6 <= |f.password| <= 50
      && f.password == f.confirm
  {
  }

  /**
   * The fields are checked independently: whether a field is reported depends on
   * that field's own text alone (and, for the password, on the confirmation).
   */
  lemma RegisterErrorsPerField(f: RegisterForm, g: RegisterForm)
    ensures f.name == g.name ==> (Name in RegisterErrors(f) <==> Name in RegisterErrors(g))
    ensures f.username == g.username ==> (Username in RegisterErrors(f) <==> Username in RegisterErrors(g))
    ensures f.email == g.email ==> (Email in RegisterErrors(f) <==> Email in RegisterErrors(g))
    ensures f.password == g.password && f.confirm == g.confirm ==>
      (Password in RegisterErrors(f) <==> Password in RegisterErrors(g))
  {
  }

  /** A password of whitespace alone is refused, however long it is. */
  lemma BlankPasswordRejected(f: RegisterForm)
    requires forall i :: 0 <= i < |f.password| ==> IsSpace(f.password[i])
    ensures !RegisterValid(f)
  {
    assert Password in RegisterErrors(f);
  }

  /** An article is accepted exactly when its title has 4 to 100 characters and its body at least 30. */
  lemma ArticleValidIff(f: ArticleForm)
    ensures ArticleValid(f) <==> 4 <= |f.title| <= 100 && 30 <= |f.body|
  {
  }
}
