# AI blog generator — a Dafny model of its decision logic

The application lets a signed-in user paste a video transcript, asks a
language model for a title and an article, and stores the result as a
`BlogPost` owned by that user. Users can list their own posts and open one
of them. Visitors register through a signup form. A data migration creates
an administrator account from environment variables.

This project models the parts of `blog_generator/views.py` and
`blog_generator/migrations/0002_create_superuser.py` that make decisions.
The framework, the database and the model SDK are replaced by values:

- The model is reduced to two inputs: whether it was configured at start-up
  (`configured`) and the text of its reply, or `None` when the call failed
  or gave no text (`reply`).
- The request body is reduced to what `json.loads` leaves: bytes it cannot
  decode as text (`UnicodeDecodeError`), text it rejects as JSON
  (`JSONDecodeError`), JSON that is not an object, or an object whose
  `title`, `transcript` and `link` fields may each be absent.
- The `BlogPost` table is a class holding a sequence of rows and the next
  primary key. The creation time is a parameter (`now`).
- The user table is a class holding a sequence of accounts. It always
  enforces unique usernames. It enforces unique e-mail addresses only when
  built with `uniqueEmails` set. The signup view assumes that constraint and
  catches the `IntegrityError` it would raise.

Modules:

- `Text`: Python's `str.strip()`, over the full set of characters for which
  `str.isspace()` holds; the substring test; the first-occurrence index
  that `split(sep, 1)` cuts at.
- `Generation`: turning the model's reply into the final title and content.
- `Blog`: the `generate_blog` view as a method on the post store; the
  `blog_list` and `blog_details` queries.
- `Accounts`: the user table and the `user_signup` view.
- `SuperuserMigration`: the migration's `create_superuser` step.

Behaviour of the code worth knowing, which the model follows:

- A request to the generate view that is not a POST gets status 405
  (`blog_generator/views.py:194-195`).
- A JSON body that is not an object makes `data.get` raise, and a body
  that is not valid UTF-8, UTF-16 or UTF-32 makes `json.loads` raise
  `UnicodeDecodeError`, which is not a `JSONDecodeError`. In both cases the
  view answers with the generic 500 error, not the 400 for invalid JSON.
- The signup view reports every `IntegrityError` from `create_user` as
  "An account with that email already exists.", although the username
  constraint raises it too: for a username that normalises onto a taken
  one, or one a concurrent signup takes after the check.
- The link defaults to `"N/A"` only when the key is absent. An empty link
  is stored as given.
- The prompt asks the model for a title, the delimiter and an article
  (`blog_generator/views.py:209-216`), but nothing checks the reply:
  `EmptyTitleIsPossible` shows a reply that gives an empty title, and
  `ContentMayHoldDelimiter` one whose content still holds the delimiter.
  An empty reply gives empty content.
- In signup, the `try` block covers both `create_user` and `login`, so a
  failing `login` shows the generic error page although the account has
  been saved.
- The user manager refuses an empty username with `ValueError`: signup
  shows the generic error page, and the migration aborts.

## Model

| member | source | states |
|---|---|---|
| `Text.SkipSpace` | blog_generator/views.py:219 | the left strip stops at the first non-whitespace character, and everything it skips is whitespace |
| `Text.BackSpace` | blog_generator/views.py:219 | the right strip stops after the last non-whitespace character, and everything it cuts is whitespace |
| `Text.Strip` | blog_generator/views.py:219 | `strip()` leaves no whitespace at either end and never lengthens the text |
| `Text.StripIsWindow` | blog_generator/views.py:219 | `strip()` keeps one contiguous window of the text and cuts only whitespace around it |
| `Text.StripIdempotent` | blog_generator/views.py:219 | stripping twice gives the same text as stripping once |
| `Text.FindFromFindsFirst` | blog_generator/views.py:222-223 | a search from a start point finds the first occurrence at or after it; `None` means there is none |
| `Text.FindFirstFindsFirst` | blog_generator/views.py:222-223 | an index is found exactly when `sep in text` holds, and it is the first occurrence |
| `Text.FindFirstIsFirst` | blog_generator/views.py:223 | the cut point of `split(sep, 1)` is the first occurrence and no other |
| `Text.StripKeepsOccurrence` | blog_generator/views.py:226 | an occurrence of a separator that has no whitespace at its ends survives `strip()` |
| `Text.StripKeeps` | blog_generator/views.py:219 | text with no whitespace at either end is left as it is by `strip()` |
| `Generation.ParseReply` | blog_generator/views.py:219-231 | a non-empty user title is the final title, whether or not the delimiter is present |
| `Generation.CutAtFirst` | blog_generator/views.py:222-226 | `split(sep, 1)` cuts at the first occurrence: the content is the stripped text after it and, without a user title, the title is the stripped text before it |
| `Generation.CutWithoutSeparator` | blog_generator/views.py:227-231 | without the separator, the content is the whole text and the title is the user title or the fallback |
| `Generation.CutKeepsLaterSeparators` | blog_generator/views.py:223-226 | separators after the first one remain inside the content |
| `Generation.CutRoundTrip` | blog_generator/views.py:222-226 | a title and a content with no whitespace at their ends, joined around a separator that does not already start inside the title, are cut back into that title and content |
| `Generation.ContentFollowsFirstDelimiter` | blog_generator/views.py:222-226 | with the delimiter present, the content is the stripped text after its first occurrence and, without a user title, the title is the stripped text before it |
| `Generation.LaterDelimitersStayInContent` | blog_generator/views.py:223-226 | delimiters after the first one remain inside the content |
| `Generation.NoDelimiterFallsBack` | blog_generator/views.py:227-231 | without the delimiter, the content is the whole stripped reply and the title is the user title or "A Blog Post About Your Video" |
| `Generation.FormatRoundTrip` | blog_generator/views.py:209-226 | a reply laid out as the prompt asks (stripped title, delimiter, stripped article) parses back to that title and article |
| `Generation.EmptyTitleIsPossible` | blog_generator/views.py:225 | a reply that starts with the delimiter gives an empty title when the user gave none |
| `Generation.ContentMayHoldDelimiter` | blog_generator/views.py:223-226 | a reply with two delimiters gives content that still contains one |
| `Blog.AppendKeepsKeys` | blog_generator/views.py:234-239 | a row saved under the next primary key keeps all keys unique |
| `Blog.BlogStore.GenerateBlog` | blog_generator/views.py:191-247 | checks run in order: model configured (500), POST (405), body decodable as text (500), valid JSON (400), a JSON object (500), transcript given (400), model reply (500). Only success appends exactly one post: the requester as owner, the parsed title and content, and the link or "N/A". Every failure leaves the store unchanged |
| `Blog.OwnedBy` | blog_generator/views.py:257 | the filter keeps each of the owner's posts as often as the store has it, and no other post |
| `Blog.PrependNewest` | blog_generator/views.py:257 | a post no older than the head can go in front of a newest-first list |
| `Blog.InsertByDate` | blog_generator/views.py:257 | inserting into a newest-first list keeps it newest first and adds exactly that post |
| `Blog.SortNewestFirst` | blog_generator/views.py:257 | ordering by `-created_at` gives a newest-first permutation of its input |
| `Blog.BlogList` | blog_generator/views.py:252-258 | the listing is newest first and holds exactly the requester's posts, each as often as it is stored |
| `Blog.FindPost` | blog_generator/views.py:266 | a found post is in the store under that key; `None` means no post has that key |
| `Blog.BlogDetails` | blog_generator/views.py:265-273 | a rendered post is in the store, has the requested key and belongs to the requester |
| `Blog.DetailOnlyForOwner` | blog_generator/views.py:265-273 | with unique keys, the page renders exactly when the requester owns a post with that key, and redirects to the list otherwise |
| `Accounts.AdmittedKeepsConstraints` | blog_generator/views.py:316-322 | a row the table admits can be appended without breaking the username or e-mail constraints |
| `Accounts.CountUsername` | blog_generator/views.py:312 | the count is zero exactly when no account has that username |
| `Accounts.AtMostOnePerUsername` | blog_generator/views.py:312-317 | with unique usernames, at most one account carries any username |
| `Accounts.UserStore.Insert` | blog_generator/views.py:317-322 | a new row is appended when the table admits it; otherwise nothing changes (`IntegrityError`) |
| `Accounts.SignupOutcome` | blog_generator/views.py:302-328 | checks run in order: a GET shows the form, then password mismatch, then a taken username, then an empty username or another failure of `create_user` (generic error), then the e-mail constraint, then a failing `login` (generic error). Each error page is given exactly when its condition holds, and the redirect exactly when the row is saved and `login` succeeds |
| `Accounts.SavedAccountBehindErrorPage` | blog_generator/views.py:316-326 | an error page after the row has been saved can only be the generic one, from a failing `login` |
| `Accounts.SignupGrantsNoPrivileges` | blog_generator/views.py:317 | an account added by signup is never staff or superuser, so signing up never grants administrator rights |
| `Accounts.MismatchBeforeTakenUsername` | blog_generator/views.py:308-314 | a password mismatch is reported even when the username is also taken |
| `Accounts.UserStore.Signup` | blog_generator/views.py:296-328 | a signed-in visitor is redirected and nothing changes. Otherwise the page is the one `SignupOutcome` gives, and one ordinary account is appended exactly when `create_user` saves it (`Saves`), including when `login` then fails; in every other case the table is unchanged. No signup adds a staff or superuser account |
| `Accounts.Message` | blog_generator/views.py:308-326 | every error has a message, and the plain form has none |
| `SuperuserMigration.DefaultSettings` | blog_generator/migrations/0002_create_superuser.py:7-9 | with no variables set, the credentials are `admin`, `defaultpassword` and `admin@example.com` |
| `SuperuserMigration.Bootstrap` | blog_generator/migrations/0002_create_superuser.py:11-19 | an existing username means "already exists" and no change; otherwise an empty username aborts with `ValueError`, and a non-empty one has exactly the admin row appended, or nothing when the table rejects it |
| `SuperuserMigration.EmptyAdminUsernameCreatesNothing` | blog_generator/migrations/0002_create_superuser.py:7-16 | `ADMIN_USERNAME` set to the empty string never adds an account |
| `SuperuserMigration.CreatesExactlyOneAdmin` | blog_generator/migrations/0002_create_superuser.py:11-16 | when the username is free and not empty and the table accepts the row, afterwards exactly one account has that username, and it is a superuser with the configured e-mail |
| `SuperuserMigration.BootstrapIdempotent` | blog_generator/migrations/0002_create_superuser.py:11-19 | a second run leaves the table as the first run left it |
| `SuperuserMigration.AtMostOneAdmin` | blog_generator/migrations/0002_create_superuser.py:11-16 | a run keeps the table's constraints, so the admin username is never held by more than one account |
| `SuperuserMigration.CreateSuperuser` | blog_generator/migrations/0002_create_superuser.py:4-19 | running the step on the user table has the outcome and the new rows that `Bootstrap` gives, and keeps the constraints |

## Left out

- The language-model SDK set-up and call, and the prompt text: they are a network call, replaced by `configured` and `reply`.
- JSON decoding: it is a library parser, replaced by the four shapes of `RequestBody`. A field holding a non-string JSON value, such as a number or `null`, is not modelled.
- Failures of `BlogPost.objects.create` itself, which would reach the view's generic 500 handler: saving a post always succeeds in the model.
- Rendering, redirects, `login`, `logout`, `authenticate`, sessions, `@login_required`, the `index` page and the login view: they are framework plumbing with no local decisions. A `login` that raises during signup is the input `loginFault`.
- Password hashing: an account keeps the password as given.
- Accounts.NewUser: the user manager NFKC-normalises the username and lower-cases the e-mail's domain before saving; the model stores the form's strings as given, since Unicode normalisation and case mapping are outside it.
- Accounts.SignupOutcome: the username constraint can raise `IntegrityError` at `create_user` after the check at `blog_generator/views.py:312` passed, when the form's username normalises onto a stored one or a concurrent signup takes it in between; the code then shows the e-mail error page and saves nothing, while the model, which compares raw usernames and handles one request at a time, reports success.
- Accounts.UserStore.Signup: for the same two paths the model appends the row the code refuses; requests are modelled one at a time.
- SuperuserMigration.AdminAccount: the user manager's NFKC normalisation of the environment's username and lower-casing of the e-mail's domain are not modelled; the row holds the strings as given.
- SuperuserMigration.Bootstrap: the existence check at `blog_generator/migrations/0002_create_superuser.py:11` compares the raw username while the saved row holds the normalised one, so an `ADMIN_USERNAME` that normalises onto an existing username (fullwidth `ａｄｍｉｎ` with `admin` stored) aborts the migration with `IntegrityError` in the code, where the model answers `Created` and appends a second row; for the same reason a second run after such a first run aborts rather than reporting "already exists", with the table unchanged either way.
- SuperuserMigration.CreatesExactlyOneAdmin: states the configured e-mail as given, which the code stores with its domain lower-cased, and counts raw usernames, so it says nothing about a username that normalises onto another.
- Missing POST form fields in signup (`request.POST.get` returning `None`): the form's fields are strings.
- Exceptions other than `IntegrityError` from `create_user` are the single input `fault`. Their causes lie inside the framework.
- Logging and `print` output.
- The commented-out earlier version of the view file: it is dead code.
- `Blog.BlogList`: ties in `created_at` are ordered one particular way. The database does not promise any order among equal timestamps, so the contract states only newest-first order and the set of posts.
- `Blog.BlogStore.GenerateBlog`: `created_at` is the `now` argument. Nothing relates it to other rows' timestamps.
