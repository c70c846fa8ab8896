/**
 * The user table as the views and the migration see it, and the
 * `user_signup` view's decision sequence.
 */
module Accounts {

  /** A row of the user table; the password is kept as given (hashing is not modelled). */
  datatype Account = Account(username: string, email: string, password: string,
                             isStaff: bool, isSuperuser: bool)

  /** `User.objects.filter(username=u).exists()`. */
  predicate UsernameTaken(accounts: seq<Account>, u: string) {
    exists i :: 0 <= i < |accounts| && accounts[i].username == u
  }

  predicate EmailTaken(accounts: seq<Account>, e: string) {
    exists i :: 0 <= i < |accounts| && accounts[i].email == e
  }

  predicate UniqueUsernames(accounts: seq<Account>) {
    forall i, j :: 0 <= i < j < |accounts| ==> accounts[i].username != accounts[j].username
  }

  predicate UniqueEmails(accounts: seq<Account>) {
    forall i, j :: 0 <= i < j < |accounts| ==> accounts[i].email != accounts[j].email
  }

  /**
   * The table's constraints: usernames are unique, and so are e-mail
   * addresses when the table is set up to enforce that.
   */
  predicate Constrained(accounts: seq<Account>, uniqueEmails: bool) {
    UniqueUsernames(accounts) && (uniqueEmails ==> UniqueEmails(accounts))
  }

  /** Whether the table accepts `a` as a new row rather than raising `IntegrityError`. */
  predicate Admits(accounts: seq<Account>, a: Account, uniqueEmails: bool) {
    !UsernameTaken(accounts, a.username) && !(uniqueEmails && EmailTaken(accounts, a.email))
  }

  /** A row the table admits can be appended without breaking its constraints. */
  lemma AdmittedKeepsConstraints(accounts: seq<Account>, a: Account, uniqueEmails: bool)
    requires Constrained(accounts, uniqueEmails) && Admits(accounts, a, uniqueEmails)
    ensures Constrained(accounts + [a], uniqueEmails)
  {
    var s := accounts + [a];
    forall i, j | 0 <= i < j < |s|
      ensures s[i].username != s[j].username
      ensures uniqueEmails ==> s[i].email != s[j].email
    {
      assert s[i] == accounts[i];
      if j < |accounts| {
        assert s[j] == accounts[j];
      }
    }
  }

  /** How many rows carry username `u`. */
  function CountUsername(accounts: seq<Account>, u: string): (n: nat)
    ensures n <= |accounts|
    ensures n == 0 <==> !UsernameTaken(accounts, u)
  {
    if accounts == [] then 0
    else
      assert forall i :: 1 <= i < |accounts| ==> accounts[i] == accounts[1..][i - 1];
      (if accounts[0].username == u then 1 else 0) + CountUsername(accounts[1..], u)
  }

  /** With unique usernames, no username is carried by more than one row. */
  lemma {:induction false} AtMostOnePerUsername(accounts: seq<Account>, u: string)
    requires UniqueUsernames(accounts)
    ensures CountUsername(accounts, u) <= 1
  {
    if accounts != [] {
      var rest := accounts[1..];
      assert UniqueUsernames(rest) by {
        forall i, j | 0 <= i < j < |rest| ensures rest[i].username != rest[j].username {
          assert rest[i] == accounts[i + 1] && rest[j] == accounts[j + 1];
        }
      }
      AtMostOnePerUsername(rest, u);
      if accounts[0].username == u {
        assert !UsernameTaken(rest, u) by {
          forall i | 0 <= i < |rest| ensures rest[i].username != u {
            assert rest[i] == accounts[i + 1];
          }
        }
      }
    }
  }

  /** The count of `u` after appending one row. */
  lemma {:induction false} CountAfterAppend(accounts: seq<Account>, a: Account, u: string)
    ensures CountUsername(accounts + [a], u)
            == CountUsername(accounts, u) + (if a.username == u then 1 else 0)
  {
    if accounts != [] {
      assert (accounts + [a])[1..] == accounts[1..] + [a];
      CountAfterAppend(accounts[1..], a, u);
    }
  }

  /** The user table, with its e-mail constraint fixed when it is set up. */
  class UserStore {
    var accounts: seq<Account>
    const uniqueEmails: bool

    ghost predicate Valid()
      reads this
    {
      Constrained(accounts, uniqueEmails)
    }

    constructor (uniqueEmails: bool)
      ensures Valid() && accounts == [] && this.uniqueEmails == uniqueEmails
    {
      accounts := [];
      this.uniqueEmails := uniqueEmails;
    }

    /**
     * Saving a new row (`create_user`, `create_superuser`): the row is
     * appended when the table admits it; otherwise `IntegrityError` is
     * raised (`ok` is false) and nothing changes.
     */
    method Insert(a: Account) returns (ok: bool)
      requires Valid()
      modifies this
      ensures Valid()
      ensures ok == Admits(old(accounts), a, uniqueEmails)
      ensures accounts == if ok then old(accounts) + [a] else old(accounts)
    {
      ok := Admits(accounts, a, uniqueEmails);
      if ok {
        AdmittedKeepsConstraints(accounts, a, uniqueEmails);
        accounts := accounts + [a];
      }
    }

    /**
     * The `user_signup` view. `fault` stands for any exception other than
     * `IntegrityError` that `create_user` may raise; `loginFault` for an
     * exception from `login` once the account is saved, which the same
     * handler catches.
     */
    method Signup(authenticated: bool, isPost: bool, form: SignupForm, fault: bool, loginFault: bool)
      returns (page: SignupPage)
      requires Valid()
      modifies this
      ensures Valid()
      ensures authenticated ==> page == RedirectToIndex
      ensures !authenticated ==>
                page == SignupOutcome(old(accounts), uniqueEmails, isPost, form, fault, loginFault)
      ensures accounts == if !authenticated && Saves(old(accounts), uniqueEmails, isPost, form, fault)
                          then old(accounts) + [NewUser(form)] else old(accounts)
      ensures GrantsNoPrivileges(old(accounts), accounts)
    {
      if authenticated {
        return RedirectToIndex;
      }
      if !isPost {
        return ShowForm(NoError);
      }
      if form.password != form.repeatPassword {
        return ShowForm(PasswordMismatch);
      }
      if UsernameTaken(accounts, form.username) {
        return ShowForm(UsernameInUse);
      }
      if form.username == "" || fault {
        return ShowForm(Unexpected);
      }
      var ok := Insert(NewUser(form));
      SignupGrantsNoPrivileges(old(accounts), form);
      if !ok {
        page := ShowForm(EmailInUse);
      } else if loginFault {
        page := ShowForm(Unexpected);
      } else {
        page := RedirectToIndex;
      }
    }
  }

  datatype SignupForm = SignupForm(username: string, email: string, password: string,
                                   repeatPassword: string)

  /** The row `create_user` builds: an ordinary, non-staff account. */
  function NewUser(form: SignupForm): Account
  {
    Account(form.username, form.email, form.password, false, false)
  }

  /** Every staff or superuser account in `after` was already in `before`. */
  predicate GrantsNoPrivileges(before: seq<Account>, after: seq<Account>) {
    forall a :: a in after && (a.isStaff || a.isSuperuser) ==> a in before
  }

  /**
   * Signing up never grants administrator rights: appending the account
   * `create_user` builds adds no staff or superuser account.
   */
  lemma SignupGrantsNoPrivileges(accounts: seq<Account>, form: SignupForm)
    ensures GrantsNoPrivileges(accounts, accounts)
    ensures GrantsNoPrivileges(accounts, accounts + [NewUser(form)])
  {
  }

  datatype SignupError = NoError | PasswordMismatch | UsernameInUse | EmailInUse | Unexpected

  /** The message the signup form shows for each outcome. */
  function Message(e: SignupError): (m: string)
    ensures |m| == 0 <==> e == NoError
  {
    match e
    case NoError => ""
    case PasswordMismatch => "Passwords do not match."
    case UsernameInUse => "That username is already taken. Please choose another."
    case EmailInUse => "An account with that email already exists."
    case Unexpected => "An unexpected error occurred. Please try again."
  }

  datatype SignupPage = RedirectToIndex | ShowForm(error: SignupError)

  /**
   * Whether the signup view's `create_user` call saves the new row: a POST
   * with matching passwords and a free username, which is not empty (the
   * user manager raises `ValueError` for an empty one), no other failure,
   * and a row the table's constraints admit.
   */
  predicate Saves(accounts: seq<Account>, uniqueEmails: bool, isPost: bool,
                  form: SignupForm, fault: bool)
  {
    isPost && form.password == form.repeatPassword && !UsernameTaken(accounts, form.username)
    && form.username != "" && !fault && Admits(accounts, NewUser(form), uniqueEmails)
  }

  /**
   * The page an anonymous visitor gets from the signup view, checked in the
   * view's order: the form for a GET, then password mismatch, then a taken
   * username, then the exceptions `create_user` raises other than
   * `IntegrityError` (an empty username among them), then the table's
   * constraint, then a failing `login`; otherwise the visitor is redirected.
   */
  function SignupOutcome(accounts: seq<Account>, uniqueEmails: bool, isPost: bool,
                         form: SignupForm, fault: bool, loginFault: bool): (page: SignupPage)
    ensures !isPost ==> page == ShowForm(NoError)
    ensures isPost && form.password != form.repeatPassword ==> page == ShowForm(PasswordMismatch)
    ensures page == ShowForm(UsernameInUse) <==>
              isPost && form.password == form.repeatPassword && UsernameTaken(accounts, form.username)
    ensures page == ShowForm(Unexpected) <==>
              isPost && form.password == form.repeatPassword && !UsernameTaken(accounts, form.username)
              && (form.username == "" || fault || (Saves(accounts, uniqueEmails, isPost, form, fault) && loginFault))
    ensures page == ShowForm(EmailInUse) <==>
              isPost && form.password == form.repeatPassword && !UsernameTaken(accounts, form.username)
              && form.username != "" && !fault && !Admits(accounts, NewUser(form), uniqueEmails)
    ensures page == ShowForm(EmailInUse) ==> uniqueEmails && EmailTaken(accounts, form.email)
    ensures page == RedirectToIndex <==> Saves(accounts, uniqueEmails, isPost, form, fault) && !loginFault
  {
    if !isPost then ShowForm(NoError)
    else if form.password != form.repeatPassword then ShowForm(PasswordMismatch)
    else if UsernameTaken(accounts, form.username) then ShowForm(UsernameInUse)
    else if form.username == "" || fault then ShowForm(Unexpected)
    else if !Admits(accounts, NewUser(form), uniqueEmails) then ShowForm(EmailInUse)
    else if loginFault then ShowForm(Unexpected)
    else RedirectToIndex
  }

  /**
   * An error page follows a saved account only when `login` failed: every
   * other error page comes before the row is saved.
   */
  lemma SavedAccountBehindErrorPage(accounts: seq<Account>, uniqueEmails: bool, isPost: bool,
                                    form: SignupForm, fault: bool, loginFault: bool)
    requires Saves(accounts, uniqueEmails, isPost, form, fault)
    requires SignupOutcome(accounts, uniqueEmails, isPost, form, fault, loginFault) != RedirectToIndex
    ensures loginFault
    ensures SignupOutcome(accounts, uniqueEmails, isPost, form, fault, loginFault) == ShowForm(Unexpected)
  {
  }

  /** A password mismatch is reported before a taken username, and either one stops the signup. */
  lemma MismatchBeforeTakenUsername(accounts: seq<Account>, uniqueEmails: bool, isPost: bool,
                                     form: SignupForm, fault: bool, loginFault: bool)
    requires isPost && (form.password != form.repeatPassword || UsernameTaken(accounts, form.username))
    ensures SignupOutcome(accounts, uniqueEmails, isPost, form, fault, loginFault)
            == ShowForm(if form.password != form.repeatPassword then PasswordMismatch else UsernameInUse)
  {
  }
}
