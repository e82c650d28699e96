/**
 * Registration (`AccountSerializer` and its `create`): per-field validation
 * with uniqueness of username and email, a write-only password, and the
 * branch on `is_superuser`.
 */
module Accounts {
  import opened Wrappers
  import opened Models
  import opened Api

  /** The request body; every field may be absent. */
  datatype AccountInput = AccountInput(username: Option<string>, email: Option<string>, isSuperuser: Option<bool>, password: Option<string>)

  /** The serialized account. The password is write-only, so the output has no such field. */
  datatype AccountView = AccountView(id: Id, username: string, email: string, isSuperuser: bool)

  const UsernameTakenMessage := "A user with that username already exists."
  const EmailTakenMessage := "user with this email already exists."

  predicate UsernameTaken(db: Db, u: string) {
    exists a :: a in db.accounts && db.accounts[a].username == u
  }

  predicate EmailTaken(db: Db, e: string) {
    EmailRegistered(db.accounts, e)
  }

  function UsernameMessages(db: Db, input: AccountInput): seq<string> {
    TextMessages(input.username, true, UsernameMaxLength, input.username.Some? && UsernameTaken(db, Trim(input.username.value)), UsernameTakenMessage)
  }

  function EmailMessages(db: Db, input: AccountInput): seq<string> {
    TextMessages(input.email, true, EmailMaxLength, input.email.Some? && EmailTaken(db, Trim(input.email.value)), EmailTakenMessage)
  }

  function PasswordMessages(input: AccountInput): seq<string> {
    TextMessages(input.password, true, PasswordMaxLength, false, "")
  }

  /**
   * The registration data that validation accepts. Every field is a text field
   * of the serializer, so each is judged after trimming.
   */
  predicate AccountAcceptable(db: Db, input: AccountInput) {
    && input.username.Some? && Trim(input.username.value) != "" && |Trim(input.username.value)| <= UsernameMaxLength
    && '\0' !in Trim(input.username.value)
    && !UsernameTaken(db, Trim(input.username.value))
    && input.email.Some? && Trim(input.email.value) != "" && |Trim(input.email.value)| <= EmailMaxLength
    && '\0' !in Trim(input.email.value)
    && !EmailTaken(db, Trim(input.email.value))
    && input.password.Some? && Trim(input.password.value) != "" && |Trim(input.password.value)| <= PasswordMaxLength
    && '\0' !in Trim(input.password.value)
  }

  /**
   * The serializer's validation: every field is checked and all failing fields
   * are reported together, in the order username, email, password
   * (`is_superuser` has a model default, so it is optional and never fails).
   */
  function ValidateAccount(db: Db, input: AccountInput): (errs: seq<FieldError>)
    ensures errs == [] <==> AccountAcceptable(db, input)
    ensures Fields(errs) ==
      IfFails("username", !TextAcceptable(input.username, true, UsernameMaxLength, input.username.Some? && UsernameTaken(db, Trim(input.username.value))))
      + IfFails("email", !TextAcceptable(input.email, true, EmailMaxLength, input.email.Some? && EmailTaken(db, Trim(input.email.value))))
      + IfFails("password", !TextAcceptable(input.password, true, PasswordMaxLength, false))
  {
    var u := FieldEntry("username", UsernameMessages(db, input));
    var e := FieldEntry("email", EmailMessages(db, input));
    var p := FieldEntry("password", PasswordMessages(input));
    assert Fields(u + e + p) == Fields(u) + Fields(e) + Fields(p) by {
      FieldsAppend(u, e);
      FieldsAppend(u + e, p);
    }
    FieldsOfEntry("username", UsernameMessages(db, input));
    FieldsOfEntry("email", EmailMessages(db, input));
    FieldsOfEntry("password", PasswordMessages(input));
    u + e + p
  }

  /** ASCII `str.lower()` of one character. */
  function LowerChar(ch: char): (l: char)
    ensures l == '@' <==> ch == '@'
    ensures IsSpace(l) <==> IsSpace(ch)
  {
    if 'A' <= ch <= 'Z' then (ch as int + 32) as char else ch
  }

  function Lower(s: string): (t: string)
    ensures |t| == |s|
    ensures forall i :: 0 <= i < |s| ==> t[i] == LowerChar(s[i])
  {
    seq(|s|, i requires 0 <= i < |s| => LowerChar(s[i]))
  }

  /** The index of the last occurrence of `ch` in `s`, if any (`rsplit(ch, 1)`). */
  function LastIndexOf(s: string, ch: char): (r: Option<nat>)
    ensures r.Some? ==> r.value < |s| && s[r.value] == ch && forall j :: r.value < j < |s| ==> s[j] != ch
    ensures r.None? ==> forall j :: 0 <= j < |s| ==> s[j] != ch
  {
    if s == [] then None
    else if s[|s| - 1] == ch then Some(|s| - 1)
    else LastIndexOf(s[..|s| - 1], ch)
  }

  /**
   * `BaseUserManager.normalize_email`: the stripped address with the part after
   * its last `@` in lower case; an address without `@` is kept as given. The
   * local part is never changed and the result is never longer.
   */
  function NormalizeEmail(email: string): (n: string)
    ensures |n| <= |email|
    ensures LastIndexOf(Trim(email), '@').None? ==> n == email
    ensures LastIndexOf(Trim(email), '@').Some? ==>
      var i := LastIndexOf(Trim(email), '@').value;
      && |n| == |Trim(email)| && n[..i + 1] == Trim(email)[..i + 1]
      && forall j :: i < j < |n| ==> n[j] == LowerChar(Trim(email)[j])
  {
    var t := Trim(email);
    match LastIndexOf(t, '@')
    case None => email
    case Some(i) =>
      DomainLowered(t, i);
      t[..i] + "@" + Lower(t[i + 1..])
  }

  /** Rebuilding an address around its `@` at `i` keeps the length and everything up to the `@`, and lowers the rest. */
  lemma DomainLowered(t: string, i: nat)
    requires i < |t| && t[i] == '@'
    ensures var n := t[..i] + "@" + Lower(t[i + 1..]);
      && |n| == |t| && n[..i + 1] == t[..i + 1]
      && forall j :: i < j < |n| ==> n[j] == LowerChar(t[j])
  {
    var n := t[..i] + "@" + Lower(t[i + 1..]);
    assert n[..i + 1] == t[..i + 1];
  }

  /** The properties that `LastIndexOf` ensures determine its result. */
  lemma {:induction false} LastIndexOfUnique(s: string, ch: char, i: nat)
    requires i < |s| && s[i] == ch
    requires forall j :: i < j < |s| ==> s[j] != ch
    ensures LastIndexOf(s, ch) == Some(i)
  {
    if s[|s| - 1] != ch {
      LastIndexOfUnique(s[..|s| - 1], ch, i);
    }
  }

  lemma LowerIdempotent(s: string)
    ensures Lower(Lower(s)) == Lower(s)
  {
  }

  /**
   * A trimmed address `t` whose last `@` is at `i`, rebuilt with the domain
   * replaced by its lower-cased form `d`, is still trimmed and still has its
   * last `@` at `i`.
   */
  lemma RebuiltAddress(t: string, i: nat, d: string)
    requires i < |t| && t[i] == '@'
    requires forall j :: i < j < |t| ==> t[j] != '@'
    requires !IsSpace(t[0]) && !IsSpace(t[|t| - 1])
    requires |d| == |t| - i - 1 && forall j :: 0 <= j < |d| ==> d[j] == LowerChar(t[i + 1 + j])
    ensures Trim(t[..i] + "@" + d) == t[..i] + "@" + d
    ensures LastIndexOf(t[..i] + "@" + d, '@') == Some(i)
  {
    RebuiltTrimmed(t, i, d);
    RebuiltLastAt(t, i, d);
  }

  lemma RebuiltTrimmed(t: string, i: nat, d: string)
    requires i < |t|
    requires !IsSpace(t[0]) && !IsSpace(t[|t| - 1])
    requires |d| == |t| - i - 1 && forall j :: 0 <= j < |d| ==> d[j] == LowerChar(t[i + 1 + j])
    ensures Trim(t[..i] + "@" + d) == t[..i] + "@" + d
  {
    var n := t[..i] + "@" + d;
    assert !IsSpace(n[0]) by {
      if i > 0 {
        assert n[0] == t[0];
      }
    }
    assert !IsSpace(n[|n| - 1]) by {
      if i < |n| - 1 {
        assert n[|n| - 1] == d[|d| - 1];
      }
    }
    TrimKeepsTrimmed(n);
  }

  lemma RebuiltLastAt(t: string, i: nat, d: string)
    requires i < |t|
    requires forall j :: i < j < |t| ==> t[j] != '@'
    requires |d| == |t| - i - 1 && forall j :: 0 <= j < |d| ==> d[j] == LowerChar(t[i + 1 + j])
    ensures LastIndexOf(t[..i] + "@" + d, '@') == Some(i)
  {
    var n := t[..i] + "@" + d;
    assert n[i] == '@';
    forall j | i < j < |n| ensures n[j] != '@' {
      assert n[j] == d[j - i - 1];
    }
    LastIndexOfUnique(n, '@', i);
  }

  /** A normalized address that contains `@` has no surrounding whitespace and its last `@` where it was. */
  lemma NormalizedShape(email: string, i: nat)
    requires LastIndexOf(Trim(email), '@') == Some(i)
    ensures var n := NormalizeEmail(email);
      && Trim(n) == n
      && LastIndexOf(n, '@') == Some(i)
      && n[..i] == Trim(email)[..i]
      && n[i + 1..] == Lower(Trim(email)[i + 1..])
  {
    AddressShape(Trim(email), i);
  }

  /** An address rebuilt around its last `@` is already stripped, keeps that `@` last, and keeps the local part. */
  lemma AddressShape(t: string, i: nat)
    requires LastIndexOf(t, '@') == Some(i)
    requires !IsSpace(t[0]) && !IsSpace(t[|t| - 1])
    ensures var n := t[..i] + "@" + Lower(t[i + 1..]);
      && Trim(n) == n
      && LastIndexOf(n, '@') == Some(i)
      && n[..i] == t[..i]
      && n[i + 1..] == Lower(t[i + 1..])
  {
    var d := Lower(t[i + 1..]);
    RebuiltAddress(t, i, d);
    var n := t[..i] + "@" + d;
    assert n[..i] == t[..i];
    assert n[i + 1..] == d;
  }

  /** Normalizing an address twice is normalizing it once. */
  lemma NormalizeEmailIdempotent(email: string)
    ensures NormalizeEmail(NormalizeEmail(email)) == NormalizeEmail(email)
  {
    var t := Trim(email);
    if LastIndexOf(t, '@').Some? {
      var i := LastIndexOf(t, '@').value;
      var n := NormalizeEmail(email);
      NormalizedShape(email, i);
      LowerIdempotent(t[i + 1..]);
      assert NormalizeEmail(n) == n[..i] + "@" + Lower(n[i + 1..]);
      assert n == n[..i] + "@" + n[i + 1..];
    }
  }

  /**
   * `create_user` and `create_superuser` both go through `_create_user`, which
   * stores the username, the normalized email and the password with the
   * requested superuser flag (the two differ only in `is_staff`). What is stored
   * fits the table whenever the validated fields do.
   */
  function CreateAccount(username: string, email: string, password: string, isSuperuser: bool): (a: Account)
    ensures a.isSuperuser == isSuperuser
    ensures a.email == NormalizeEmail(email)
    ensures |username| <= UsernameMaxLength && |email| <= EmailMaxLength && |password| <= PasswordMaxLength ==> AccountFits(a)
  {
    Account(username, password, NormalizeEmail(email), isSuperuser)
  }

  /** The email that registering `input` would store. */
  function StoredEmail(input: AccountInput): string
    requires input.email.Some?
  {
    NormalizeEmail(Trim(input.email.value))
  }

  function AccountOut(id: Id, a: Account): AccountView {
    AccountView(id, a.username, a.email, a.isSuperuser)
  }

  const MissingFlagDetail := "KeyError: 'is_superuser'"
  const DuplicateEmailDetail := "IntegrityError: UNIQUE constraint failed: accounts_account.email"

  /**
   * POST /accounts/. Invalid data is reported without touching the store.
   * `create` reads `validated_data['is_superuser']` unconditionally, so a body
   * without that key fails after validation with an unhandled KeyError. The
   * uniqueness check sees the trimmed email, but the manager stores it
   * normalized, so an address that differs from a registered one only in the
   * case of its domain passes validation and then breaks the unique
   * constraint on insert.
   */
  function Register(db: Db, input: AccountInput): (s: Step<AccountView>)
    ensures s.response.BadRequest? <==> !AccountAcceptable(db, input)
    ensures s.response.BadRequest? ==> s.response.errors == ValidateAccount(db, input)
    ensures s.response.ServerError? ==>
      s.response.detail == if input.isSuperuser.None? then MissingFlagDetail else DuplicateEmailDetail
    ensures s.response.Created? <==> AccountAcceptable(db, input) && input.isSuperuser.Some? && !EmailTaken(db, StoredEmail(input))
    ensures s.response.ServerError? <==> AccountAcceptable(db, input) && (input.isSuperuser.None? || EmailTaken(db, StoredEmail(input)))
    ensures !s.response.Created? ==> s.db == db
  {
    var errs := ValidateAccount(db, input);
    if errs != [] then Step(db, BadRequest(errs))
    else if input.isSuperuser.None? then Step(db, ServerError(MissingFlagDetail))
    else
      var id := db.nextId;
      var account := CreateAccount(Trim(input.username.value), Trim(input.email.value), Trim(input.password.value), input.isSuperuser.value);
      if EmailTaken(db, account.email) then Step(db, ServerError(DuplicateEmailDetail))
      else Step(db.(accounts := db.accounts[id := account], nextId := id + 1), Created(AccountOut(id, account)))
  }

  /**
   * A successful registration adds exactly one account, under a fresh id, with
   * the trimmed username and password, the normalized email and the requested
   * superuser flag; the response echoes it without the password. Nothing else
   * changes.
   */
  lemma RegisterAddsOneAccount(db: Db, input: AccountInput)
    requires db.Valid()
    requires Register(db, input).response.Created?
    ensures var s := Register(db, input);
      && db.nextId !in db.accounts
      && s.db.accounts == db.accounts[db.nextId := Account(Trim(input.username.value), Trim(input.password.value), StoredEmail(input), input.isSuperuser.value)]
      && |s.db.accounts| == |db.accounts| + 1 && s.db.nextId == db.nextId + 1
      && s.db.courses == db.courses && s.db.contents == db.contents && s.db.rows == db.rows
      && s.response.body == AccountView(db.nextId, Trim(input.username.value), StoredEmail(input), input.isSuperuser.value)
  {
  }

  /** The successful branch of a registration, written out for the store. */
  lemma RegisterCreates(db: Db, input: AccountInput)
    requires input.username.Some? && input.email.Some? && input.password.Some? && input.isSuperuser.Some?
    requires ValidateAccount(db, input) == [] && !EmailTaken(db, StoredEmail(input))
    ensures var account := CreateAccount(Trim(input.username.value), Trim(input.email.value), Trim(input.password.value), input.isSuperuser.value);
      Register(db, input) == Step(db.(accounts := db.accounts[db.nextId := account], nextId := db.nextId + 1), Created(AccountOut(db.nextId, account)))
  {
  }

  lemma RegisterPreservesValid(db: Db, input: AccountInput)
    requires db.Valid()
    ensures Register(db, input).db.Valid()
  {
    if Register(db, input).response.Created? {
      RegisterAddsOneAccount(db, input);
      var a := Account(Trim(input.username.value), Trim(input.password.value), StoredEmail(input), input.isSuperuser.value);
      assert AccountFits(a);
      assert !UsernameTaken(db, a.username) && !EmailTaken(db, a.email);
      InsertAccountValid(db, a);
    }
  }

  /** The password is write-only: it never influences the response. */
  lemma PasswordIsWriteOnly(db: Db, input: AccountInput, otherPassword: string)
    requires TextAcceptable(input.password, true, PasswordMaxLength, false)
    requires TextAcceptable(Some(otherPassword), true, PasswordMaxLength, false)
    ensures Register(db, input.(password := Some(otherPassword))).response == Register(db, input).response
  {
    var other := input.(password := Some(otherPassword));
    assert ValidateAccount(db, other) == ValidateAccount(db, input) by {
      assert PasswordMessages(other) == [] == PasswordMessages(input);
    }
  }

  /** An empty body fails on exactly username, email and password, each as required. */
  lemma EmptyBodyErrors(db: Db)
    ensures ValidateAccount(db, AccountInput(None, None, None, None)) ==
      [FieldError("username", [RequiredMessage]), FieldError("email", [RequiredMessage]), FieldError("password", [RequiredMessage])]
    ensures Register(db, AccountInput(None, None, None, None)).db == db
  {
  }

  /**
   * Registering a taken username together with a taken email reports both
   * fields with their uniqueness messages, and creates nothing.
   */
  lemma DuplicateUsernameAndEmail(db: Db, input: AccountInput)
    requires db.Valid()
    requires input.username.Some? && input.email.Some? && input.password.Some?
    requires UsernameTaken(db, Trim(input.username.value)) && EmailTaken(db, Trim(input.email.value))
    requires Trim(input.username.value) != "" && Trim(input.email.value) != ""
    requires '\0' !in Trim(input.username.value) && '\0' !in Trim(input.email.value)
    requires TextAcceptable(input.password, true, PasswordMaxLength, false)
    ensures Register(db, input) == Step(db, BadRequest([FieldError("username", [UsernameTakenMessage]), FieldError("email", [EmailTakenMessage])]))
  {
    var a :| a in db.accounts && db.accounts[a].username == Trim(input.username.value);
    var b :| b in db.accounts && db.accounts[b].email == Trim(input.email.value);
    assert AccountFits(db.accounts[a]) && AccountFits(db.accounts[b]);
    assert UsernameMessages(db, input) == [UsernameTakenMessage];
    assert EmailMessages(db, input) == [EmailTakenMessage];
    assert PasswordMessages(input) == [];
    assert ValidateAccount(db, input) == [FieldError("username", [UsernameTakenMessage])] + [FieldError("email", [EmailTakenMessage])] + [];
  }

  /** A username of nothing but spaces is blank once trimmed, so registration is refused. */
  lemma SpacesOnlyUsernameIsBlank(db: Db, input: AccountInput)
    requires input.username == Some("   ")
    ensures UsernameMessages(db, input) == [BlankMessage]
    ensures Register(db, input) == Step(db, BadRequest(ValidateAccount(db, input)))
  {
    assert Trim("   ") == "" by {
      TrimBlankIffAllSpace("   ");
    }
  }

  /** An address with a single `@` and no surrounding whitespace normalizes to its domain lower-cased. */
  lemma NormalizeLowersDomain(local: string, domain: string)
    requires '@' !in domain
    requires Trim(local + "@" + domain) == local + "@" + domain
    ensures NormalizeEmail(local + "@" + domain) == local + "@" + Lower(domain)
  {
    var e := local + "@" + domain;
    assert e[|local|] == '@';
    forall j | |local| < j < |e| ensures e[j] != '@' {
      assert e[j] == domain[j - |local| - 1];
    }
    LastIndexOfUnique(e, '@', |local|);
    assert e[..|local|] == local;
    assert e[|local| + 1..] == domain;
  }

  /**
   * An address that differs from a registered one only in the case of its
   * domain (`bob@KENZIE.com` against `bob@kenzie.com`) passes the uniqueness
   * check, is normalized onto the registered address by the manager, and so
   * breaks the unique constraint on insert: a 500 that changes nothing.
   */
  lemma DomainCaseVariantFailsOnInsert(db: Db, input: AccountInput, local: string, domain: string)
    requires AccountAcceptable(db, input) && input.isSuperuser.Some?
    requires Trim(input.email.value) == local + "@" + domain && '@' !in domain
    requires EmailRegistered(db.accounts, local + "@" + Lower(domain))
    ensures Register(db, input) == Step(db, ServerError(DuplicateEmailDetail))
  {
    TrimIdempotent(input.email.value);
    NormalizeLowersDomain(local, domain);
    assert StoredEmail(input) == local + "@" + Lower(domain);
  }
}
