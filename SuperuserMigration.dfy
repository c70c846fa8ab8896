/**
 * The data migration that creates the administrator account from the
 * environment when no account with that username exists yet.
 */
module SuperuserMigration {
  import opened Accounts

  /** The process environment, as `os.environ`. */
  type Environment = map<string, string>

  /** `os.environ.get(key, default)`. */
  function EnvGet(env: Environment, key: string, default: string): string
  {
    if key in env then env[key] else default
  }

  datatype AdminSettings = AdminSettings(username: string, password: string, email: string)

  /** The administrator's credentials, each read from the environment with its default. */
  function AdminSettingsFrom(env: Environment): AdminSettings
  {
    AdminSettings(EnvGet(env, "ADMIN_USERNAME", "admin"),
                  EnvGet(env, "ADMIN_PASSWORD", "defaultpassword"),
                  EnvGet(env, "ADMIN_EMAIL", "admin@example.com"))
  }

  /** With none of the three variables set, the defaults apply. */
  lemma DefaultSettings(env: Environment)
    requires "ADMIN_USERNAME" !in env && "ADMIN_PASSWORD" !in env && "ADMIN_EMAIL" !in env
    ensures AdminSettingsFrom(env) == AdminSettings("admin", "defaultpassword", "admin@example.com")
  {
  }

  /** The row `create_superuser` builds: a staff superuser. */
  function AdminAccount(s: AdminSettings): Account
  {
    Account(s.username, s.email, s.password, true, true)
  }

  /**
   * `AlreadyExists` is the "already exists" branch. `NoUsername` is the
   * `ValueError` the user manager raises for an empty username, and
   * `Rejected` an `IntegrityError` from the table; either aborts the
   * migration.
   */
  datatype Outcome = Created | AlreadyExists | NoUsername | Rejected

  datatype Step = Step(outcome: Outcome, accounts: seq<Account>)

  /** One run of the migration, on the rows it starts from. */
  function Bootstrap(accounts: seq<Account>, s: AdminSettings, uniqueEmails: bool): (r: Step)
    ensures r.outcome == AlreadyExists <==> UsernameTaken(accounts, s.username)
    ensures r.outcome == NoUsername <==> !UsernameTaken(accounts, s.username) && s.username == ""
    ensures r.outcome == Created <==>
              s.username != "" && Admits(accounts, AdminAccount(s), uniqueEmails)
    ensures r.outcome == Created ==> r.accounts == accounts + [AdminAccount(s)]
    ensures r.outcome != Created ==> r.accounts == accounts
  {
    if UsernameTaken(accounts, s.username) then Step(AlreadyExists, accounts)
    else if s.username == "" then Step(NoUsername, accounts)
    else if Admits(accounts, AdminAccount(s), uniqueEmails) then
      Step(Created, accounts + [AdminAccount(s)])
    else Step(Rejected, accounts)
  }

  /**
   * When the administrator's username is free and not empty, and the table accepts the
   * row, afterwards exactly one account has that username, and it is a
   * superuser with the configured e-mail address.
   */
  lemma {:induction false} CreatesExactlyOneAdmin(accounts: seq<Account>, s: AdminSettings, uniqueEmails: bool)
    requires Constrained(accounts, uniqueEmails) && s.username != ""
    requires !UsernameTaken(accounts, s.username)
    requires !(uniqueEmails && EmailTaken(accounts, s.email))
    ensures var after := Bootstrap(accounts, s, uniqueEmails).accounts;
      CountUsername(after, s.username) == 1
      && forall a :: a in after && a.username == s.username ==> a.isSuperuser && a.email == s.email
  {
    var after := accounts + [AdminAccount(s)];
    CountAfterAppend(accounts, AdminAccount(s), s.username);
    forall a | a in after && a.username == s.username
      ensures a.isSuperuser && a.email == s.email
    {
      var i :| 0 <= i < |after| && after[i] == a;
      if i < |accounts| {
        assert accounts[i].username == s.username;
      }
    }
  }

  /** Running the migration a second time changes nothing: it is idempotent. */
  lemma BootstrapIdempotent(accounts: seq<Account>, s: AdminSettings, uniqueEmails: bool)
    ensures var once := Bootstrap(accounts, s, uniqueEmails).accounts;
      Bootstrap(once, s, uniqueEmails).accounts == once
  {
    var first := Bootstrap(accounts, s, uniqueEmails);
    if first.outcome == Created {
      var n := |accounts|;
      assert first.accounts[n].username == s.username;
    }
  }

  /** Runs of the migration, one after another, never add a second administrator. */
  lemma {:induction false} AtMostOneAdmin(accounts: seq<Account>, s: AdminSettings, uniqueEmails: bool)
    requires Constrained(accounts, uniqueEmails)
    ensures var once := Bootstrap(accounts, s, uniqueEmails).accounts;
      Constrained(once, uniqueEmails) && CountUsername(once, s.username) <= 1
  {
    var r := Bootstrap(accounts, s, uniqueEmails);
    if r.outcome == Created {
      AdmittedKeepsConstraints(accounts, AdminAccount(s), uniqueEmails);
    }
    AtMostOnePerUsername(r.accounts, s.username);
  }

  /**
   * `ADMIN_USERNAME` set to the empty string never creates an account: the
   * run finds an existing row with that name or aborts with `ValueError`.
   */
  lemma EmptyAdminUsernameCreatesNothing(accounts: seq<Account>, env: Environment, uniqueEmails: bool)
    requires "ADMIN_USERNAME" in env && env["ADMIN_USERNAME"] == ""
    ensures var r := Bootstrap(accounts, AdminSettingsFrom(env), uniqueEmails);
      r.outcome in {AlreadyExists, NoUsername} && r.accounts == accounts
  {
  }

  /** The migration's `create_superuser` step, run against the user table. */
  method CreateSuperuser(store: UserStore, env: Environment) returns (outcome: Outcome)
    requires store.Valid()
    modifies store
    ensures store.Valid()
    ensures Step(outcome, store.accounts)
            == Bootstrap(old(store.accounts), AdminSettingsFrom(env), store.uniqueEmails)
  {
    var s := AdminSettingsFrom(env);
    if UsernameTaken(store.accounts, s.username) {
      outcome := AlreadyExists;
    } else if s.username == "" {
      outcome := NoUsername;
    } else {
      var ok := store.Insert(AdminAccount(s));
      outcome := if ok then Created else Rejected;
    }
  }
}
