# URL shortener: record store, key generator and handlers

A model of a small URL-shortening service. A client posts a long target URL
and receives a row holding a short public `key` and an admin `secret_key`.
A visit to the key redirects to the target and adds one to the row's
`clicks`. The secret key shows the row (info) or switches it off (delete).
The model has five modules:

- `Wrappers`: `Option`, the "row or absent" answer.
- `UrlTable` (`url_table.dfy`): the row datatype `UrlRecord` and the two
  read-only queries of the store. A query is `filter(column == value,
  is_active).first()`, modelled as "the first active row in table order".
  It answers with the row's position.
- `Keygen` (`keygen.dfy`): `generate_random_key` and the retry loop
  `create_unique_random_key`. Randomness is an input. `picks` is the stream
  of draws the secure random source would make, one per character. A draw
  `p` chooses `chars[p % |chars|]`.
- `Crud` (`crud.dfy`): the class `UrlStore`. Its field `rows` is the table,
  and its methods are the three operations that change it: insert, add a
  click and deactivate. The module also holds the invariant these methods
  keep (`TableInvariant`) and the one-way lifecycle of a row (`Evolves`: no
  row is removed, keys and target never change, a row never becomes active
  again, clicks never go down).
- `Service` (`service.dfy`): the handlers create, redirect, info and delete.
  Each one takes the store and answers with a `Response` value. It also has
  two client methods that chain handlers: create then redirect, and delete
  then everything else.

The queries are split out of the store module because the Python modules
`crud` and `keygen` import each other, and Dafny modules cannot.

The code and its own docstring disagree on one point. The docstring of
`create_unique_random_key` (`app/keygen.py:34-35`) says a new key is redrawn
when it "already exists in the database", active or not. The code checks a
candidate only with the active-only lookup (`app/keygen.py:44` calls
`get_db_url_by_key`, which filters on `is_active` at `app/crud.py:45`). The
model follows the code:

- `FirstFreeKey` promises freedom among active rows only.
- `TableInvariant` keeps active keys pairwise distinct.
- `InactiveKeyIsReissued` shows that a key held only by inactive rows is issued again.

Secret keys are never checked. Still, active rows cannot share a secret,
because a secret starts with its row's key (`ActiveSecretsUnique`). So the
bulk deactivation, which switches off every row with that secret, in effect
switches off only the row it found (`DeactivateTouchesOnlyFoundRow`).

## Model

| member | source | states |
|---|---|---|
| `UrlTable.NewRecord` | app/crud.py:21-25 | a new row carries the given target, key and secret; active with zero clicks is an assumed column default |
| `Crud.SecretKeyFor` | app/crud.py:20 | the secret splits back into the key, an underscore and the suffix, with the expected length |
| `Service.RaiseNotFound` | app/main.py:36-38 | a 404 whose detail quotes the requested URL |
| `Service.RaiseBadRequest` | app/main.py:41-42 | a 400 whose detail is the given message |
| `Service.DeletedMessage` | app/main.py:176 | the confirmation quotes the target URL at a fixed place |
| `Service.DeletedMessageNamesTarget` | app/main.py:176 | different targets give different confirmations |
| `UrlTable.FirstSelected` | app/crud.py:43-47 | `.first()` after the filter: the answer is a row that passes the filter and no earlier row passes it; absent means no row passes |
| `UrlTable.GetDbUrlByKey` | app/crud.py:32-47 | the first active row whose key is the argument; absent exactly when no active row has that key; reads only, so the table is unchanged |
| `UrlTable.GetDbUrlBySecretKey` | app/crud.py:50-65 | the first active row whose secret key is the argument; absent exactly when no active row has it |
| `UrlTable.QueryDependsOnFilterColumns` | app/crud.py:61-65 | a query's answer depends only on the filtered column and the active flag of each row |
| `UrlTable.QueryAfterAppend` | app/crud.py:26 | adding a row keeps every answer already found; a query that found nothing now finds the new row exactly when the new row passes its filter |
| `Keygen.CharRange` | app/keygen.py:10 | a run of consecutive ASCII characters holds exactly the characters between its two ends |
| `Keygen.DefaultChars` | app/keygen.py:10 | the default alphabet has 62 characters and holds exactly the upper-case letters, lower-case letters and digits |
| `Keygen.GenerateRandomKey` | app/keygen.py:8-27 | the key has exactly `length` characters and each one is in `chars` |
| `Keygen.EveryKeyIsReachable` | app/keygen.py:27 | every string of that length over `chars` is the outcome of some stream of draws; with the previous row, the possible keys are exactly those strings |
| `Keygen.DefaultKey` | app/keygen.py:43 | the default call gives five characters of the default alphabet |
| `Keygen.FirstFreeKey` | app/keygen.py:30-46 | the retry loop's outcome: a returned key has the default shape and no active row holds it; the unused draws are the tail of the stream; no key only when the stream ran short. With the next three rows: the key returned is the first free candidate |
| `Keygen.CreateUniqueRandomKey` | app/keygen.py:43-46 | the loop returns exactly the first candidate that no active row holds, and the draws it left unused; it receives the table as a value and cannot change it |
| `Keygen.InactiveKeyIsReissued` | app/keygen.py:43-46 | for every table and stream, a first candidate that no active row holds is returned at once, even if inactive rows hold it |
| `Keygen.ActiveKeyIsRedrawn` | app/keygen.py:44-45 | for every table and stream, a first candidate that an active row holds is dropped and the search goes on with the rest of the stream |
| `Keygen.NoKeyIffAllTaken` | app/keygen.py:44-45 | the search finds no key exactly when active rows hold every candidate the stream can supply, which is where the unbounded loop would keep drawing |
| `Crud.SecretKeyShape` | app/crud.py:20 | the secret is the key, `_`, then the eight suffix characters; the key is a prefix of the secret |
| `Crud.SecretDeterminesKey` | app/crud.py:20 | a secret of that shape determines its key |
| `Crud.ActiveSecretsUnique` | app/crud.py:19-20 | under the table invariant, two active rows never share a secret key |
| `Crud.Clicked` | app/crud.py:80 | one click on a row: its clicks rise by exactly one, its other fields and every other row stay as they were |
| `Crud.Deactivated` | app/crud.py:103-105 | every row with the secret, active or not, ends up inactive; other rows keep their flag; clicks, keys and targets do not change |
| `Crud.EvolvesTransitive` | app/crud.py:80 | the one-way lifecycle composes over any number of operations |
| `Crud.ClickedKeepsInvariant` | app/crud.py:80 | a click keeps the table invariant and moves the table forward in the lifecycle |
| `Crud.DeactivatedKeepsInvariant` | app/crud.py:103-105 | deactivation keeps the table invariant and moves the table forward in the lifecycle |
| `Crud.InsertKeepsInvariant` | app/crud.py:21-26 | appending a well-formed row whose key no active row holds keeps the table invariant |
| `Crud.ClickedKeepsLookups` | app/main.py:97-101 | a click changes no query's answer, so a redirect is a self-loop on an active row |
| `Crud.DeactivatedHidesSecret` | app/crud.py:99-105 | after deactivation, a lookup by that secret finds nothing, and so does a second deactivation |
| `Crud.DeactivatedHidesKey` | app/crud.py:99-105 | after deactivating the row found by its secret, a lookup by that row's key finds nothing |
| `Crud.DeactivateTouchesOnlyFoundRow` | app/crud.py:99-105 | under the table invariant, the bulk update changes only the row the lookup found |
| `Crud.UrlStore.CreateDbUrl` | app/crud.py:5-29 | appends exactly one row and leaves the others unchanged; the row has the input target, the key from the retry loop, the secret `key_suffix` built from the next eight draws, is active and has no clicks |
| `Crud.UrlStore.UpdateDbClicks` | app/crud.py:68-84 | the table becomes `Clicked` of the old table; the invariant and the lifecycle hold |
| `Crud.UrlStore.DeactivateDbUrlBySecretKey` | app/crud.py:87-110 | answers with the lookup by secret; if that is absent the table is unchanged, otherwise the table is `Deactivated` and the row returned is inactive |
| `Service.CreateUrl` | app/main.py:57-75 | an invalid target gets 400 "Your provider URL is not valid" and no row. A valid target gets a row exactly when the stream yields a free key and eight more draws. That row is the only new one: it is active, has zero clicks, has that target and the loop's key, and is the response |
| `Service.ForwardToTargetUrl` | app/main.py:78-104 | a key held by an active row: one more click on that row, then a redirect to its target; otherwise 404 "URL '<request url>' doesn't exist" and the table is unchanged |
| `Service.GetUrlInfo` | app/main.py:107-130 | a secret held by an active row returns that row and changes nothing; otherwise 404 |
| `Service.DeleteUrlInfo` | app/main.py:160-180 | a secret held by an active row: that row becomes inactive and the detail is "Successfully deleted shortened URL for '<target>'"; otherwise 404 and no change |
| `Service.CreateThenRedirect` | app/main.py:74-101 | a valid target with enough draws is created; a request for the new row's key then redirects to the target, and that visit is the row's first click |
| `Service.DeleteIsFinal` | app/main.py:173-180 | a delete succeeds exactly when an active row holds the secret; afterwards a request for that row's key, an info request for the secret and a second delete of it all answer 404, and the row stays in the table, inactive |

## Left out

- Database session, engine, commit and refresh, and `get_db` (app/main.py:14-28, app/database.py). The table is a sequence that the operations update directly.
- Settings loading, the `.env` file, the cache and the print (app/config.py). They are configuration plumbing.
- The pydantic schemas (app/schemas.py). Only their field list is used, for `UrlRecord`.
- `validators.url`, a foreign library. It is the predicate `isUrl`, passed to `CreateUrl`.
- The random source. Draws are an input stream, and no probability is claimed. Because the stream is finite, the unbounded retry loop stops when fewer than five draws remain, and creation also needs eight more draws for the suffix. A create that runs out answers `OutOfDraws` and adds nothing. `Service.CreateUrl` states exactly when that happens: no free key before the stream ran short, or fewer than eight draws left after the key. The source would go on drawing, and this outcome does not exist in the source.
- `get_admin_info` (app/main.py:133-157). It builds the absolute `url` and `admin_url` from the base URL and the router, which is library behaviour. Create and info answer with the stored row only.
- `read_root` (app/main.py:31-33). It returns a constant greeting.
- The request URL in the 404 message is a parameter (`requestUrl`). The framework fills it in.
- `.first()` without an ORDER BY has no order fixed by the database. The model takes table order, the insertion order.
- Concurrency: the check-then-insert race in key creation and the read-modify-write of the click counter. The model is sequential.
- Column defaults and uniqueness constraints live in app/models.py, which is not part of this model. "A new row is active with zero clicks" is an assumption (`NewRecord`), not a derived fact. `clicks` is an unbounded natural number, with no column width.
- Keygen.GenerateRandomKey: requires a non-empty alphabet. The source would raise on an empty one (or return "" for length 0). No caller passes an empty alphabet.
