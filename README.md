# movie-app: the table logic of the Flask handlers

movie-app is a small Flask site. It lists popular and top-rated movies
fetched from a movie metadata service, shows a detail page with a featured
trailer and user comments, and lets registered users like movies. Apart
from HTTP and templating, its only logic is what the handlers in `main.py`
do to three SQL tables: `users`, `comments` and `favourite_movies`. This
project models that logic and proves properties of it. It is CRUD-level
logic. Each handler reads a table, decides, and adds or removes at most
one row.

Modules:

- `Queries` (queries.dfy) models the ORM queries as pure functions over a
  table held as a sequence and a key function for the column:
  `filter_by(...).first()` (`FirstIndex`), `filter_by(...).all()` (`Where`),
  deleting the row found (`RemoveFirst`), a UNIQUE column (`Distinct`),
  and the lemmas about them.
- `Text` (text.dfy) models Python's `str.strip()`, with the full set of
  code points that `str.isspace` accepts.
- `Schema` (schema.dfy) holds the three row types and the table invariant
  `WellFormed`. It states that ids are unique and below the id counter,
  that usernames and emails are unique, that there is at most one favourite
  row per (user, movie) pair, and that every comment and favourite belongs
  to an existing user.
- `Accounts` (accounts.dfy) holds the registration verdict and the login
  verdict as pure functions.
- `Comments` (comments.dfy) holds a movie's comment listing.
- `Favourites` (favourites.dfy) holds the favourite toggle and the list of
  favourite movie ids the listing pages use.
- `Listing` (listing.dfy) holds the choice of list and the choice of
  featured trailer.
- `MovieStore` (store.dfy) defines the class `Store`: the three tables as
  sequence fields plus the counter primary keys come from. It has one method
  per handler that reads or writes the tables. Every method keeps
  `WellFormed`.
- `StoreExample` (store.dfy) is a worked scenario: a user registers, logs
  in, and likes a movie twice.

## Model

| member | source | states |
|---|---|---|
| Queries.FirstIndex | main.py:118 | `.first()` finds the first row whose column equals the value; every earlier row differs; it finds nothing exactly when no row has the value |
| Queries.Where | main.py:153 | `.all()` returns no more rows than the table holds, each row at most as often as the table holds it, and only rows whose column matches |
| Queries.WhereMembers | main.py:153 | a row is returned by `.all()` exactly when it is in the table and its column matches |
| Queries.RemoveFirst | main.py:122 | deleting the row `.first()` found shrinks the table by one when a row matched, and leaves it unchanged otherwise |
| Queries.RemoveFirstKeepsOthers | main.py:122 | the delete takes rows away and adds none; every row with another key keeps its multiplicity |
| Queries.RemoveFirstExactly | main.py:118-122 | on a UNIQUE column, the rows left are exactly the rows with another key |
| Queries.WhereAppend | main.py:149-153 | the rows listed from a concatenation are those listed from each part, in order |
| Queries.WhereHeadIsFirst | main.py:137-142 | the head of the filtered list is the row `.first()` finds, in the original order |
| Queries.FirstIndexOfAppended | main.py:207-209 | a row appended with a key no earlier row has is the first match for that key |
| Queries.DistinctAppend | main.py:31-33 | appending a row whose key is new keeps the column unique |
| Queries.DistinctRemoveFirst | main.py:122 | deleting a row keeps every unique column unique |
| Queries.WhereAfterRemove | main.py:118-123 | deleting a row whose listing key differs leaves that listing unchanged |
| Queries.WhereAfterAppend | main.py:149-153 | appending a row extends its own listing by that row and leaves other listings unchanged |
| Queries.HasKeySameRows | main.py:165-167 | two tables with the same multiplicities for every row of a key agree on whether the key is present |
| Text.TrimStart | main.py:184 | removes exactly the leading whitespace: what remains is a suffix that is empty or starts with a non-space |
| Text.TrimEnd | main.py:184 | removes exactly the trailing whitespace: what remains is a prefix that is empty or ends with a non-space |
| Text.Strip | main.py:184-188 | `str.strip()` is no longer than its input, and its result is empty or starts and ends with a non-space |
| Text.StripCutsWhitespace | main.py:184-188 | the stripped text is a contiguous slice of the input, and everything cut around it is whitespace |
| Text.StripIdempotent | main.py:184-188 | stripping twice gives the same text as stripping once |
| Text.StripUnpadded | main.py:184-188 | a text that starts and ends with a non-space is its own strip |
| Text.BlankStripsToEmpty | main.py:184 | a text of whitespace only strips to the empty text |
| Schema.FreshIdUnused | main.py:30-49 | when every id is below the counter, no row has the counter's value, so it is a fresh primary key |
| Accounts.RegisterCheck | main.py:184-205 | registration fails in this order: stripped password shorter than 8, stripped username shorter than 3, raw username taken, email taken; it passes exactly when all four checks pass |
| Accounts.RegisterMessagesDistinct | main.py:184-205 | the four registration errors are shown with four different messages (main.py:186, 190, 199, 204) |
| Accounts.BlankPasswordRefused | main.py:184-187 | a whitespace-only password gets the password error, whatever its raw length |
| Accounts.RegisterKeepsAccountsUnique | main.py:31-33 | a registration that passes keeps usernames and emails unique |
| Accounts.SameUsernameRefused | main.py:197-200 | registering an existing username again, with a valid password, gets "Username already exists" |
| Accounts.SameEmailRefused | main.py:202-205 | a new valid username with an email already in use gets "Email already exists" |
| Accounts.Authenticate | main.py:222-226 | "User not found" exactly when the username is absent; a login as a user means a stored row with that username and password; "Incorrect password" means the username is stored with another password |
| Accounts.LoginMessagesDistinct | main.py:223-226 | an unknown username and a wrong password get different messages |
| Accounts.LoginExactly | main.py:222-229 | with unique usernames, login succeeds exactly for a stored (username, password) pair and logs in as that row's user; "Incorrect password" exactly when the username is stored with another password |
| Accounts.RegisteredUserCanLogIn | main.py:207-229 | right after registering, the same username and password log in as the new user |
| Comments.CommentsFor | main.py:153 | a movie's listing holds exactly the comments on that movie |
| Comments.PostedCommentListed | main.py:146-153 | a posted comment is listed last on its own movie, after the earlier ones; no other movie's listing changes |
| Comments.DeleteRemovesExactly | main.py:118-123 | deleting an id removes exactly the comment with that id, whoever wrote it; the table shrinks only if the id was present; no other movie's listing changes |
| Favourites.Toggled | main.py:165-172 | a toggle deletes one row when the pair is recorded, and otherwise appends exactly the new row for the pair |
| Favourites.ToggleKeepsOtherPairs | main.py:165-172 | rows of every other (user, movie) pair keep their multiplicity |
| Favourites.ToggleTwiceRestores | main.py:165-172 | toggling twice from a table without the pair gives back the same table |
| Favourites.ToggleFlipsPair | main.py:165-172 | a toggle flips whether the pair is recorded and keeps at most one row per pair |
| Favourites.FavouriteIds | main.py:71-73 | anonymous visitors get no ids; otherwise a movie id is listed exactly when the current user has a favourite row for it |
| Favourites.ToggleFlipsFavouriteIds | main.py:91-93 | after a toggle, the toggled movie's mark flips for the toggling user, that user's other marks stay, and every other user's list is unchanged |
| Listing.ChooseList | main.py:82-89 | top-rated exactly for "toprated", popular otherwise; the page is the query argument, or 1 when it is missing |
| Listing.IsOfficialTrailer | main.py:140 | a video passes the filter exactly when its type is present and equals "Trailer" and its official flag is present and true |
| Listing.SelectTrailerKey | main.py:137-142 | the featured key is the key of the first video whose type is "Trailer" and whose official flag is true |
| MovieStore.Store.constructor | main.py:60-61 | the empty tables are well formed |
| MovieStore.Store.Register | main.py:180-210 | the result is RegisterCheck's verdict on the old table; on success exactly one user is appended, stored as submitted, under a fresh id; on failure nothing changes; other tables never change |
| MovieStore.Store.Login | main.py:219-229 | the login verdict on the store, and exactly the properties of LoginExactly, since the store keeps usernames unique; nothing changes |
| MovieStore.Store.AddComment | main.py:146-150 | exactly one comment by the current user on the route's movie is appended under a fresh id; nothing else changes |
| MovieStore.Store.MovieDetails | main.py:127-154 | the featured key is SelectTrailerKey's; a POST appends the user's comment; the listing is the movie's comments, with the posted one last after the earlier ones |
| MovieStore.Store.DeleteComment | main.py:118-125 | the 400 answer exactly when the id is absent, with the table unchanged; otherwise the row with that id is removed, with no ownership check; other tables unchanged |
| MovieStore.DeleteError | main.py:119-125 | a deletion answers with the 400 status and "Comment not found. Try again!" exactly when no comment was found, and with the redirect otherwise |
| MovieStore.Store.ToggleFavourite | main.py:165-174 | `added` exactly when the pair was absent; the table becomes Toggled's result; the counter advances only on insertion |
| MovieStore.RegisterKeepsWellFormed | main.py:31-33 | appending a user who passed registration, under the next id, keeps the tables well formed |
| MovieStore.AddCommentKeepsWellFormed | main.py:39-42 | appending a comment by an existing user, under the next id, keeps the tables well formed |
| MovieStore.DeleteKeepsWellFormed | main.py:122 | deleting a comment keeps the tables well formed |
| MovieStore.ToggleKeepsWellFormed | main.py:165-172 | a toggle by an existing user keeps the tables well formed, including at most one row per pair |
| MovieStore.OwnersSurviveAppend | main.py:42-51 | comments and favourites still name existing users after a user is appended |
| StoreExample.AliceMayRegister | main.py:184-205 | a fresh username with an 8-character password and a new email passes registration on an empty table |
| StoreExample.AliceRegisters | main.py:207-229 | after registering on an empty database, the user is stored under id 1 and logs in as user 1 |
| StoreExample.AliceLikesTwice | main.py:165-174 | a registered user's first like adds the row and marks the movie on their pages; the second like removes the row and the mark |

## Left out

- HTTP and rendering: routing, `render_template`, `redirect` and `request.referrer`. Each outcome is a result value instead: a `RegisterError` with its message, a `LoginOutcome`, a `DeleteOutcome` with its 400 answer (`DeleteError`).
- The login session: `login_user`, `current_user`, `login_required` and `load_user` (main.py:56-58). The current user is an `Option<Id>` or a user id parameter. Setting the session after a successful login is not modelled.
- Persistence: `db.session.commit`, `db.create_all` and the environment configuration (main.py:14-17, 60-61). The tables are sequences, and all three tables draw primary keys from one shared counter instead of separate auto-increment sequences. Only the freshness of a key matters to the handlers' decisions. One difference: the model never reuses a key, but a database such as SQLite with a plain INTEGER PRIMARY KEY can hand the top id of a deleted row to the next insert. An old delete link can then remove the new comment, where the model answers 400.
- The movie metadata service (`get_popular_movies`, `get_toprated_movies`, `get_movie_details`, `get_movie_videos`, `get_recomendation`, `get_images_detail`) is code outside this model. Its video list is a parameter. Its movie lists, details, images and recommendations are not modelled. Neither is the profile page (main.py:238-247), which only maps that service over the user's favourites.
- Both `search_movies` definitions (main.py:98-111). The route is bound to the first (main.py:98-103), a stub that returns a constant. The second def (main.py:105-111) rebinds the name and so shadows the first, but the route keeps the first function object, so the second never runs.
- The unused module-level `users` list (main.py:63), and the debug `print` calls.
- The `created_at` timestamps (main.py:43, 54), which come from the wall clock.
- Crash paths are preconditions, not behaviour. A form field that is missing is `None` in Python, and the model types form fields as strings. A missing password or username fails at `.strip()` (main.py:184, 188). A missing email (main.py:183) or comment content (main.py:147) fails at commit, because the columns are NOT NULL (main.py:33, 40). An anonymous comment POST (main.py:148) is excluded by requiring a current user on `MovieDetails`. An empty video list (main.py:135) or a list with no official trailer (main.py:142) raises an index error; `SelectTrailerKey` requires an official trailer.
- Accounts.Authenticate: login fields are strings. In the source, a missing login field is `None` and does not crash. `filter_by(username=None)` becomes `IS NULL` and matches no row, so the answer is "User not found". A missing password for a stored username differs from the stored one, so the answer is "Incorrect password". A missing field thus behaves like a value no stored row holds.
- MovieStore.Store.MovieDetails: the raw `videos[0].get('key')` at main.py:135 is overwritten before use, so only its failure on an empty list matters, and the trailer precondition covers that.
- Column length limits (`String(50)`, `String(120)`, `String(255)`) are not enforced. Whether an over-long value is rejected or truncated depends on the database.
- Route parameters are taken as integers. The database's conversion of the raw path text is not modelled, and neither is its collation: names and emails compare by exact equality.
- Row order is insertion order. SQL does not promise any order for `.first()` or `.all()` without `ORDER BY`.
- Concurrent requests, for example two toggles racing, are not modelled.
- The error message says "Password must be at least 8 characters long" (main.py:186), but the code measures the stripped password (main.py:184). The model follows the code, so a password of at least 8 characters that is padded with spaces can still be refused.
