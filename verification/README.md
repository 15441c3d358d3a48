# Barzanji schedule store — a Dafny model of its item handlers

The service keeps one list of schedule records (`id`, `nama`, `tanggal`,
`alamat`) in a JSON file and serves it over HTTP. Every writing request
reads the whole list, changes it in memory and overwrites the file. This
project models the list logic of the three writing handlers in `server.js`:

- `POST /items` checks that the three fields are given and non-empty. It
  then pushes a record whose id is the **last** record's id + 1, or 1 when
  the list is empty.
- `PUT /items/:id` validates the body **before** it looks the id up. It
  finds the first record with that id and replaces that record's three
  fields, keeping its id and position.
- `DELETE /items/:id` filters out every record with that id. It answers
  404 when the filter removed nothing.

Files:

- `items.dfy` (module `Items`) holds the pure list logic and the lemmas
  about it: `NextId`, `Appended`, `FindIndex`, `Replaced` and `Without`.
- `handlers.dfy` (module `Handlers`) holds one method per handler. Each
  takes the loaded list and returns three things: the status, the record
  sent back, and the list handed to `writeDatabase`. That last one is
  `None` when the handler answers without writing.
- `store.dfy` (module `Store`) holds the backing file as a class,
  `Database`, whose `contents` field each request reads and overwrites.
  Its invariant is `Valid()`: ids strictly increase along the file. Every
  request keeps that invariant, so no two records ever share an id.

A path id is an `Option<int>`. `None` stands for the NaN that `parseInt`
gives for a non-numeric segment. NaN is never `===` to anything, so `None`
matches no record. A body field is an `Option<string>`, and it counts as
given only when it is present and not `""`.

Points about the id rule that the model makes precise:

- The next id is the last record's id + 1, not the largest id + 1. The two
  agree whenever ids increase along the list (`Items.NextIdIsMaxPlusOne`).
  `Items.LastPlusOneNeedsOrder` shows a list out of order on which the rule
  hands out an id that is already taken.
- Deleting the last record makes the next create reuse an id no greater
  than the deleted one (`Items.DeletingLastLowersNextId`). Ids are unique
  within the list at any moment. They are not unique over the store's
  lifetime.

## Model

| member | source | states |
|---|---|---|
| `Items.IncreasingIdsAreUnique` | server.js:71 | strictly increasing ids along the list imply that no two records share an id |
| `Items.NextId` | server.js:71 | the new id is 1 for an empty list, otherwise the last id + 1; under increasing ids it is greater than every stored id |
| `Items.NextIdIsMaxPlusOne` | server.js:71 | under increasing ids, last id + 1 equals the largest id + 1 |
| `Items.LastPlusOneNeedsOrder` | server.js:70-77 | on a list whose ids do not increase, last id + 1 can duplicate an existing id |
| `Items.Appended` | server.js:70-77 | a push adds exactly one record at the end, with the next id and the three given fields; earlier records are unchanged; increasing ids stay increasing |
| `Items.AppendedAllExtends` | server.js:70-77 | successive creates keep the starting list as a prefix and append the given fields in request order |
| `Items.AppendedAllNumbers` | server.js:71 | a list numbered 1..n stays numbered consecutively under any number of further creates |
| `Items.CreatesFromEmptyNumberOneToN` | server.js:70-77 | from an empty store, N successful creates give exactly the records with ids 1..N carrying the N bodies in order |
| `Items.FindIndex` | server.js:98-100 | the result is -1 iff no record matches; otherwise it is the index of the first matching record |
| `Items.Replaced` | server.js:105 | only the record at the index changes; it keeps its id and takes exactly the three new fields; the length and every id stay the same; increasing ids stay increasing |
| `Items.ReplacedKeepsLookup` | server.js:98-105 | after an update, looking up the same id finds the same position again |
| `Items.Without` | server.js:121 | the result is never longer than the list and no record left in it matches the id, so a second delete of that id finds nothing |
| `Items.WithoutKeepsNonMatching` | server.js:121 | a record is in the result iff it is in the list and does not match the id |
| `Items.WithoutConcat` | server.js:121 | filtering a concatenation is the concatenation of the filtered parts, so the kept records stay in order |
| `Items.WithoutShrinksIffMatch` | server.js:121-125 | the filter keeps the length iff no record matches, and then it gives back the same list |
| `Items.WithoutPreservesIncreasing` | server.js:121 | filtering keeps ids strictly increasing |
| `Items.LastIdOnlyAtEnd` | server.js:71 | under increasing ids, the last record's id occurs nowhere earlier in the list |
| `Items.WithoutDropsMatchingTail` | server.js:121 | filtering a list with no match followed by one matching record gives back that list |
| `Items.DeletingLastLowersNextId` | server.js:121 | under increasing ids starting at 1, deleting the last record's id removes exactly that record, and the next create's id is at most the deleted id, so ids are reused |
| `Handlers.Create` | server.js:59-85 | 400 iff a field is missing or empty, with nothing written; otherwise 201, the new record with the next id is returned, and the list plus that record at the end is written; increasing ids are preserved |
| `Handlers.Update` | server.js:88-113 | 400 iff the body is invalid, whether or not the id exists; otherwise 404 iff no record matches (including a NaN id); neither path writes; otherwise 200 with the first match's fields replaced, id and position kept, all else unchanged |
| `Handlers.Delete` | server.js:116-134 | 404 iff no record matches, with nothing written; otherwise 200 and the filtered list, strictly shorter and free of the id, is written; increasing ids are preserved |
| `Store.Database.constructor` | server.js:20-22 | a backing file that does not exist yet is created holding the empty list |
| `Store.Database.Post` | server.js:59-85 | one create request: on 400 the file is unchanged; on 201 the file holds the old list with the new record appended; ids stay unique |
| `Store.Database.Put` | server.js:88-113 | one update request: on 400 or 404 the file is unchanged; on 200 only the first match is replaced; ids stay unique |
| `Store.Database.Remove` | server.js:116-134 | one delete request: on 404 the file is unchanged; on 200 every match is gone and the rest is kept in order; ids stay unique |
| `Store.ScheduleScenario` | server.js:59-134 | create A, create B, update id 1, delete id 2 and delete id 2 again answer 201, 201, 200, 200 and 404, and leave exactly the updated record with id 1 |

## Left out

- `GET /` and `GET /items` return a fixed greeting and the whole list without changing anything. They are not modelled.
- File I/O is not modelled: `existsSync`, `readFileSync`, `writeFileSync` and JSON pretty-printing. The backing file is the `contents` field of `Store.Database`. Reading it is a read of that field, and writing it is an assignment.
- Store failures are not modelled: a read error swallowed into an empty list, and a write error answered with 500. These are I/O failure behaviour. Writes are assumed to succeed.
- `parseInt` is not modelled. The parsed path id is given as `Option<int>`.
- Express setup, CORS, JSON body parsing, response formatting, logging and `listen` are framework plumbing and are not modelled. The response messages are not modelled either. Only the status and the record returned are.
- JavaScript truthiness of non-string body values (`0`, `false`, `null`) is not modelled. Fields are optional strings.
- Keys other than the four fields are not modelled. The object spread in the update would keep extra keys of a stored object, and the model's records have no others.
- Concurrent requests racing on read-modify-write are not modelled. Each request is one sequential call.
- The handlers work on the loaded list as a value. `push` and the indexed assignment become sequence updates of a local variable. `readDatabase` parses a fresh array for every request and nothing else refers to it, so no aliasing is lost.
- Items.NextId: ids are unbounded integers, not JavaScript numbers (IEEE doubles). At 2^53, `id + 1` no longer grows, so a store whose last id is 2^53 would get a duplicate id. The uniqueness promises of `Handlers.Create` and `Store.Database.Post` therefore hold only for stored ids that are whole numbers below 2^53. An empty store needs 2^53 creates to reach that bound. A stored id that is not a whole number is outside the model too: `parseInt` can never produce it, so no path id matches it.
- Handlers.Create: the promise that increasing ids stay increasing assumes the last stored id is a whole number below 2^53, as explained under Items.NextId.
- Store.Database.Post: the promise that ids stay unique assumes the same bound on the last stored id.
