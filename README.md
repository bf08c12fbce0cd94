# Social feed backend in Dafny

A model of the request handlers of a small social-feed backend written with Flask and
SQLAlchemy. The handlers cover registration, login and logout. A session guard protects
the message, like, comment and repost routes and the feed. A second, public message board
publishes as a fixed test user and lists messages.

Each relational table is a sequence of records in insertion order. The main route set is the
class `App.Backend`. It holds:

- the five tables;
- the session (`sesion`, the id of the logged-in user, if any);
- one id counter per table.

Each handler is a method that changes these fields. Its contract spells out, for every branch
of the route:

- the reply;
- the new state of every field.

The predicate `Backend.Valid` is the store invariant that every handler that writes keeps. It is
`App.Consistente` applied to the fields:

- ids are fresh and unique;
- emails are unique;
- a user has at most one like and one repost per message;
- every row names an existing user;
- likes and reposts name a message id that was already handed out;
- the session names an existing user.

The public board is the class `Publico.Muro`. Its invariant says that every stored text
passed the board's checks.

The queries the handlers issue are written as sequence functions in `Seqs`:

- `.first()` is the first match in table order (`FindFirst`);
- `filter_by(...).all()` is `Filter`;
- `ORDER BY fecha DESC` is `SortDesc`, an ordering by non-increasing timestamp proved sorted
  and a permutation.

The pure logic the handlers apply lives in `Tables` and `Text`:

- password hashing and checking;
- the login match;
- the like/repost toggle;
- deleting by id;
- the feed item;
- `str.strip()`.

Modules:

- `seqs.dfy` (`Seqs`): query primitives and the fresh-key invariant.
- `api.dfy` (`Api`): `Result` and the error replies with their HTTP codes.
- `text.dfy` (`Text`): Python's `str.strip()` and `str.isspace()`.
- `tables.dfy` (`Tables`): records and the pure logic of the main route set.
- `app.dfy` (`App`): the `Backend` class and the feed specification.
- `routes.dfy` (`Publico`): the public board.

## Behaviour of the handlers worth knowing

- `Backend.CrearMensaje` stores any text as given (`app.py:176-183`); only the public board
  checks text.
- `Backend.Comentar` stores a comment for any message id; the handler never looks the
  message up (`app.py:237-245`).
- `Backend.Logout` has no session guard (`app.py:118-121`) and works with or without a
  session.
- A failed login does not touch the session, so whoever was logged in stays logged in.
- `Backend.EliminarMensaje` fails with a server error, deleting nothing, when the message has
  a like, a comment or a repost. The relationships from a message to those rows
  (`app.py:34-36`) do not cascade, so the ORM sets their `mensaje_id` to NULL when the
  message is deleted, and the NOT NULL columns (`app.py:41`, `49`, `54`) refuse the commit.

## Model

| member | source | states |
|---|---|---|
| Seqs.FindFirst | 4.implementacion/backend/app.py:99 | `.first()`: the index found is the first row satisfying the filter, and there is none exactly when no row satisfies it |
| Seqs.Filter | 4.implementacion/backend/app.py:145-147 | `filter_by(...).all()`: an element is in the result exactly when it is in the table and satisfies the filter, and each satisfying element occurs as often as in the table (so `len` of the result counts the matching rows) |
| Seqs.FilterAppend | 4.implementacion/backend/app.py:228 | filtering a concatenation is concatenating the filtered parts |
| Seqs.RemoveAt | 4.implementacion/backend/app.py:203 | deleting one row keeps every other row, in order, and removes exactly that row from the multiset of rows |
| Seqs.FreshKeysAppend | 4.implementacion/backend/app.py:91 | appending a row whose key is the counter keeps the keys unique and below the counter moved on by one |
| Seqs.FreshKeysRemove | 4.implementacion/backend/app.py:203 | deleting a row keeps the primary keys unique and below the counter |
| Seqs.Insert | 4.implementacion/backend/app.py:139 | inserting into a newest-first sequence keeps it newest-first and adds exactly that element |
| Seqs.BoundedByMultiset | 4.implementacion/backend/app.py:139 | a rearrangement of bounded elements is bounded by the same value |
| Seqs.SortDesc | 4.implementacion/backend/app.py:139 | `ORDER BY fecha DESC`: the result is ordered by non-increasing timestamp and is a permutation of the table |
| Text.IsSpace | 4.implementacion/backend/routes.py:11 | the characters `str.isspace()` accepts, the ones `str.strip()` removes |
| Text.Leading | 4.implementacion/backend/routes.py:11 | the count of leading characters is the length of the longest all-white-space prefix |
| Text.Trailing | 4.implementacion/backend/routes.py:11 | the count of trailing characters is the length of the longest all-white-space suffix |
| Text.Strip | 4.implementacion/backend/routes.py:11 | `str.strip()`: the result is empty exactly when the input is all white space; otherwise it is the input between its leading and trailing white space, and it has no white space at either end |
| Text.StripIdempotent | 4.implementacion/backend/routes.py:11 | stripping twice is stripping once |
| Text.StripKeeps | 4.implementacion/backend/routes.py:11 | a string with no white space at either end is its own strip |
| Tables.HashPassword | 4.implementacion/backend/app.py:89 | the stored hash keeps its salt and the password it was made from checks against it |
| Tables.UsuarioPorId | 4.implementacion/backend/app.py:126 | `Usuario.query.get(id)` on an existing id yields a stored user with that id |
| Tables.NombreDe | 4.implementacion/backend/app.py:163 | the first name of the stored user with that id, whenever one exists |
| Tables.BuscarFaltante | 4.implementacion/backend/app.py:74-77 | the loop over the required fields stops at the first one that is absent or empty, and reports none exactly when all five are present |
| Tables.CheckPassword | 4.implementacion/backend/app.py:103 | `check_password_hash`: the stored hash is recomputed with its salt and compared (its round trip with hashing is `Tables.HashPassword`) |
| Tables.FirstMissing | 4.implementacion/backend/app.py:74-77 | the field reported is the first of the five, in their order, that is absent or empty; none is reported exactly when all five are present and non-empty |
| Tables.Authenticate | 4.implementacion/backend/app.py:99-105 | login succeeds exactly when the first user whose email or "nombre apellido" equals the identifier has a password hash that checks; the user returned is that first match, so it is stored, matches and checks; every failure is the same "invalid credentials" error |
| Tables.RegisteredUserCanLogIn | 4.implementacion/backend/app.py:84-106 | a user just added with the hash of a password logs in with their email and that password, provided no earlier user has that email or that full name |
| Tables.BuscarMensaje | 4.implementacion/backend/app.py:198 | `get_or_404(id)`: a row is found exactly when a message with that id exists, and the row found has that id |
| Tables.TieneReferencias | 4.implementacion/backend/app.py:34-54 | some like, comment or repost names the message: the case in which deleting it breaks a NOT NULL column (its link to the feed counts is `Tables.TieneReferenciasIff`) |
| Tables.TieneReferenciasIff | 4.implementacion/backend/app.py:34-54 | a message has a like, comment or repost naming it exactly when its selected likes, comments or reposts are not all empty |
| Tables.ReaccionesDeIff | 4.implementacion/backend/app.py:145-147 | the likes or reposts selected for a message are not empty exactly when some row names the message |
| Tables.DeleteRemovesExactly | 4.implementacion/backend/app.py:198-204 | deleting the message found by id removes one row; afterwards no message has that id, every other message is still there and nothing new appears |
| Tables.Toggle | 4.implementacion/backend/app.py:212-224 | the like or repost toggle as a value: the first (user, message) row is deleted if there is one, else a row with the next id is appended (its properties are `Tables.ToggleCases`, `Tables.ToggleFlips`, `Tables.ToggleTotal` and `Tables.ToggleTwice`) |
| Tables.ToggleCases | 4.implementacion/backend/app.py:212-224 | with no (user, message) row the toggle appends one; with one it deletes such a row |
| Tables.RemovePair | 4.implementacion/backend/app.py:218 | deleting a row under one-row-per-pair removes exactly that row's pair and keeps every other pair |
| Tables.RemoveKeepsUnique | 4.implementacion/backend/app.py:218 | deleting a row keeps at most one row per pair |
| Tables.AppendPair | 4.implementacion/backend/app.py:220-224 | appending a row for an absent pair keeps one row per pair and adds exactly that pair |
| Tables.ToggleFlips | 4.implementacion/backend/app.py:211-226 | a toggle flips whether the user has a row for the message, leaves every other (user, message) pair as it was and keeps one row per pair |
| Tables.RemoveCount | 4.implementacion/backend/app.py:228 | deleting a row lowers the count of its message by one and leaves the others |
| Tables.AppendCount | 4.implementacion/backend/app.py:228 | appending a row raises the count of its message by one and leaves the others |
| Tables.ToggleTotal | 4.implementacion/backend/app.py:228-231 | after a toggle the message has one row fewer if the user had one and one more if not; every other message keeps its count |
| Tables.ToggleTwice | 4.implementacion/backend/app.py:211-232 | two toggles by the same user on the same message restore every pair and every count, and restore the table itself when the first toggle added the row |
| Tables.ToggleKeepsTabla | 4.implementacion/backend/app.py:211-226 | the toggle keeps a reaction table well formed (fresh unique ids, one row per pair, rows naming existing users and handed-out message ids), takes a fresh id only when it adds a row, and flips whether the user has a row for the message |
| Tables.RemoveKeepsTabla | 4.implementacion/backend/app.py:217-218 | deleting a row keeps a reaction table well formed under the same counter |
| Tables.AppendKeepsTabla | 4.implementacion/backend/app.py:219-224 | appending a row with the next id for an absent pair of an existing user and a handed-out message id keeps the table well formed, with the counter one higher |
| Tables.AlternarReaccion | 4.implementacion/backend/app.py:212-224 | the branch of both reaction handlers: the new table is the toggle of the old one, a row is added exactly when the user had none for the message, and the counter moves only then |
| Tables.VistasComentarios | 4.implementacion/backend/app.py:159-164 | one comment entry per comment, in order, with the commenter's first name |
| Tables.ReaccionesDe | 4.implementacion/backend/app.py:145-147 | `Like/Republicacion.query.filter_by(mensaje_id=m).all()` (what it selects is `Tables.ReaccionesDeIff`; its count is `Seqs.Filter`) |
| Tables.ComentariosDe | 4.implementacion/backend/app.py:146 | `Comentario.query.filter_by(mensaje_id=m).all()` (what it selects is `Tables.ComentariosDeIff`) |
| Tables.TotalesDe | 4.implementacion/backend/app.py:155-168 | the `likes` or `republicaciones` object of a feed item (its meaning is `Tables.TotalesDeSpec`) |
| Tables.ComentariosVista | 4.implementacion/backend/app.py:159-164 | the `comentarios` list of a feed item (its meaning is `Tables.ComentariosVistaSpec`) |
| Tables.AlgunoDeIff | 4.implementacion/backend/app.py:157 | the flag computed over a message's rows holds exactly when the user has a row for that message |
| Tables.ComentariosDeIff | 4.implementacion/backend/app.py:146 | a comment is selected exactly when it is stored and belongs to the message |
| Tables.TotalesDeSpec | 4.implementacion/backend/app.py:155-158 | the totals object counts the message's rows and flags whether the requesting user has one |
| Tables.ComentariosVistaSound | 4.implementacion/backend/app.py:159-164 | every comment entry comes from a stored comment on the message |
| Tables.ComentariosVistaComplete | 4.implementacion/backend/app.py:159-164 | every stored comment on the message has an entry |
| Tables.ComentariosVistaSpec | 4.implementacion/backend/app.py:146-164 | the comment list of a feed item has one entry per comment on the message; each entry is such a comment and each such comment has an entry |
| Tables.VistaDe | 4.implementacion/backend/app.py:144-154 | a feed item carries the message's id, text and time, and, whenever the author exists, the author's full name and email |
| Tables.VistaDeTotales | 4.implementacion/backend/app.py:145-168 | a feed item's like and repost totals count the message's rows and flag whether the requesting user has one |
| App.ConsistenteToggle | 4.implementacion/backend/app.py:208-278 | toggling the logged-in user's like or repost of an existing message keeps the store invariant, and flips whether the user has that like or repost |
| App.AltaUsuario | 4.implementacion/backend/app.py:84-93 | adding a user with the next id and an email nobody has keeps the store invariant |
| App.UsuarioExisteAppend | 4.implementacion/backend/app.py:91 | adding a user keeps every existing user id and adds the new one |
| App.NoRowsFor | 4.implementacion/backend/app.py:190-192 | a message id no row names has no likes or reposts |
| App.FeedOrden | 4.implementacion/backend/app.py:139-143 | items built one per message of the ordered table keep the newest-first order and cover every message |
| App.Vistas | 4.implementacion/backend/app.py:142-169 | the feed items of the ordered messages, one per message in the given order (pointwise by `App.VistasItems`) |
| App.Feed | 4.implementacion/backend/app.py:139-171 | the feed of the logged-in user: the items of every message, newest first (its properties are `App.FeedSpec`) |
| App.VistasSnoc | 4.implementacion/backend/app.py:142-169 | one more turn of the feed loop appends the item of the next ordered message |
| App.ArmarFeed | 4.implementacion/backend/app.py:142-169 | the feed loop yields exactly the items of the ordered messages, in order |
| App.VistasItems | 4.implementacion/backend/app.py:142-169 | the loop's items are, position by position, the feed items of the ordered messages |
| App.OrdenMembers | 4.implementacion/backend/app.py:139 | every message of the ordered table is a stored message |
| App.FeedItems | 4.implementacion/backend/app.py:139-171 | the items of the ordered messages form a newest-first feed, one item per stored message |
| App.FeedSpec | 4.implementacion/backend/app.py:139-171 | the feed has one item per message, newest first; each item is the feed item of a stored message and each stored message has an item |
| App.Backend.constructor | 4.implementacion/backend/app.py:57-59 | the store starts empty, with nobody logged in, and satisfies the invariant |
| App.Backend.Registro | 4.implementacion/backend/app.py:72-93 | reports the first missing field, then a taken email, then an unparseable date, changing nothing; otherwise it appends the user with a fresh id and the hash of the password, changes no other table and keeps the invariant |
| App.Backend.Login | 4.implementacion/backend/app.py:96-116 | on a successful match the session names the user and the profile is returned; otherwise "invalid credentials" and the session is left as it was |
| App.Backend.Logout | 4.implementacion/backend/app.py:118-121 | nobody is logged in afterwards, with or without a session before |
| App.Backend.ObtenerUsuarioActual | 4.implementacion/backend/app.py:123-133 | without a session the reply is "unauthorized", as the session guard answers on every guarded route; with one, the profile of the logged-in user |
| App.Backend.ObtenerMensajes | 4.implementacion/backend/app.py:136-171 | with a session, the feed of the logged-in user over the current tables (its properties are `App.FeedSpec`); without one, "unauthorized" |
| App.Backend.CrearMensaje | 4.implementacion/backend/app.py:173-193 | appends a message by the logged-in user with a fresh id and the given text and time; the reply carries them, the author's first name and zero engagement, and the stored likes and reposts of the new id are indeed none |
| App.Backend.EliminarMensaje | 4.implementacion/backend/app.py:195-206 | "not found" for an unknown id, "forbidden" for another user's message, and a failed commit when a like, comment or repost names the message, all changing nothing; otherwise exactly that message is removed and nothing else changes |
| App.Backend.DarLike | 4.implementacion/backend/app.py:208-232 | "not found" for an unknown id; otherwise the likes become the toggle of the old ones, the reply is the new count and whether a like was added, the user's like on the message is present exactly when it was absent before, and the like counter moves on only when a like was added |
| App.Backend.Comentar | 4.implementacion/backend/app.py:234-252 | appends a comment by the logged-in user with a fresh id on the given message id, whether or not that message exists, and replies with it and the commenter's first name |
| App.Backend.Republicar | 4.implementacion/backend/app.py:254-278 | the same toggle contract as a like, on the reposts and their counter |
| Publico.TextoDe | 4.implementacion/backend/routes.py:11 | `data.get('texto', '')`: the text field, the empty text when it is missing |
| Publico.ValidarTexto | 4.implementacion/backend/routes.py:10-15 | the accepted text is the strip of `texto` (missing means empty), non-empty, at most 2000 characters and without white space at its ends; "empty" exactly when the text is all white space, "too long" exactly when the stripped text exceeds 2000 characters |
| Publico.MaxLengthBoundary | 4.implementacion/backend/routes.py:14-15 | a text of exactly 2000 characters with no white space at its ends is accepted unchanged, and one more character is refused as too long |
| Publico.NombreDe | 4.implementacion/backend/routes.py:33 | the name of a user with the message's user id, whenever one exists |
| Publico.Entrada | 4.implementacion/backend/routes.py:29-34 | a listing entry has the message's id, text and time and the name of its author |
| Publico.Entradas | 4.implementacion/backend/routes.py:28-34 | the listing entries of the given messages, in order (pointwise by `Publico.EntradasItems`) |
| Publico.Listado | 4.implementacion/backend/routes.py:26-34 | the listing: the entries of every message, newest first (its properties are `Publico.ListadoSpec`) |
| Publico.EntradasItems | 4.implementacion/backend/routes.py:28-34 | the loop's entries are, position by position, the entries of the ordered messages |
| Publico.ListadoSorted | 4.implementacion/backend/routes.py:26 | the entries of newest-first messages are newest first |
| Publico.ListadoSound | 4.implementacion/backend/routes.py:26-34 | every listing entry is the entry of a stored message |
| Publico.ListadoComplete | 4.implementacion/backend/routes.py:26-34 | every stored message has its entry in the listing |
| Publico.ListadoSpec | 4.implementacion/backend/routes.py:26-35 | the listing has one entry per stored message, newest first; each entry is the entry of a stored message and each stored message has its entry |
| Publico.Muro.constructor | 4.implementacion/backend/models.py:11-15 | the board starts with the given users, no messages, and satisfies its invariant |
| Publico.Muro.PublicarMensaje | 4.implementacion/backend/routes.py:9-22 | a text that fails the checks is refused before the test user (id 1) is looked up; a missing test user gives "user not found"; both change nothing; otherwise the stripped text is appended as a new message of user 1 with a fresh id, and every stored text stays valid |
| Publico.Muro.ListarMensajes | 4.implementacion/backend/routes.py:25-35 | returns the listing of the stored messages (its properties are `Publico.ListadoSpec`) |

## Left out

- HTTP, JSON encoding and decoding, CORS, and the ISO rendering of timestamps are not modelled. A request body is a `map<string, string>` of its fields and a reply is a `Result`.
- Request fields are modelled as strings only: a request body is a map from field names to strings, and other JSON value types (numbers, booleans, null, lists) are not modelled. Bodies that are not JSON are not modelled either.
- A missing `email`, `contrasena` or `texto` key in login, message creation and commenting makes those handlers raise and answer 500; that case is not modelled.
- Flask's cookie session is reduced to the field `sesion`. Its signing key and its 7-day lifetime are not modelled.
- The password hash function of the hashing library is the parameter `digest`, and the salt it draws is a parameter of `Backend.Registro`. The model assumes nothing else about the digest.
- Date parsing (`strptime` with `%Y-%m-%d`) is the parameter `parseDate`. The calendar rules it applies are not modelled.
- The clock (`datetime.utcnow`) is the `now` parameter of each handler that stores a row.
- Ids come from a counter per table and are never reused. SQLite may hand out the largest deleted id again; that reuse is not modelled.
- Messages with equal timestamps come out of `Seqs.SortDesc` in one order. The database may return them in another, so the model fixes one of the orders it may produce.
- Comments within a feed item are in insertion order. The database does not promise any order there.
- The per-row database constraints are not modelled as separate checks: nullability, string lengths, foreign keys and unique email at commit time. `Backend.Valid` and `Muro.Valid` state the integrity the handlers themselves keep.
- Concurrent requests and transaction isolation are not modelled. Each handler runs as one atomic step.
- Debug prints, `app.url_map` and the server start-up at the end of `app.py` are not modelled.
- Tables.VistaDe: when a message's author is missing, the handler would fail on the missing user and answer 500; the model fills the two author fields with empty strings instead. The store invariant rules this case out.
- The user table of the public board is never written by the board itself. Its users are given to `Muro`'s constructor.
- App.Backend.CrearMensaje: states that the new id has no stored likes or reposts, but not that it has no stored comments. Commenting does not check that the message exists, so a comment stored earlier under the same id shows up in the feed while this reply lists none.
