# Item registry model

A Dafny model of the item API backend: an in-memory, ordered list of items
(`id`, `name`, `quantity`) and a counter `next_id`, behind five handlers:
list, create, get, update and delete. The process starts with three seed items
(ids 1 to 3: Apple/42, Banana/25, Orange/30) and `next_id` 4.

- `items.dfy`, module `Items`: the `Item` record and the two request bodies.
  `ItemCreate` has a required name and quantity. `ItemUpdate` has an optional
  name and an optional quantity, where `None` means the field was omitted.
  The module also holds the field constraints: a name of 1 to 100 characters
  and a quantity of at least 0 (`CreateAccepted`, `UpdateAccepted`). Beside
  them are the first-match scan by id (`IndexOf`), the partial update of one
  item (`ApplyUpdate`) and the list `pop` (`RemoveAt`). The registry
  invariant `WellFormed` says that ids are pairwise distinct, every id is
  below `next_id`, and every item meets the field constraints. Lemmas show
  that the seed state meets it and that append, in-place replacement and
  removal keep it.
- `registry.dfy`, module `Store`: the class `Registry`. Its fields are
  `items: seq<Item>` and `nextId: int`, which are the two module globals. A
  ghost field `issued` holds every id ever handed out, deleted ones included.
  The handlers are the methods `GetAll`, `Create`, `Get`, `Update` and
  `Delete`, plus `ItemsCount` for the health check's `items_count`. Each
  handler returns an `Outcome`: `Ok`, `NotFound` (404) or `ValidationError`
  (422). `StatusCode` maps an outcome of an endpoint to its HTTP status:
  201 for a create, 204 for a delete, 200 for the other successes. Two client
  methods, checked by the verifier, replay from the seed state the sequence
  that backend/test_main.py tests piece by piece. `SeedScenario` creates
  id 4, gets it, updates its quantity, deletes it, and then gets a 404.
  `RejectionScenario` covers the rejected bodies and the never-issued id 99999.

Request validation happens in the framework before a handler runs. The model
makes it the first step of `Create` and `Update`, so a rejected body changes
nothing. An update with an invalid body on an id that does not exist gives 422, not 404,
because the body is validated before the handler looks up the id.

## Model

| member | source | states |
|---|---|---|
| `Items.CreateAccepted` | backend/main.py:12-13 | holds exactly when the name has 1 to 100 characters and the quantity is at least 0, its definition; its contract states that these are exactly the field constraints of a stored item, so an accepted body yields an item that meets the registry invariant |
| `Items.UpdateAccepted` | backend/main.py:16-17 | holds exactly when each supplied field meets its create constraint; an omitted field always passes, and a body with both fields passes exactly when the same body would pass for a create |
| `Items.IndexOf` | backend/main.py:136-139 | the result is the position of the first item with the id; it is `None` exactly when no item has that id |
| `Items.IndexOfIsFirst` | backend/main.py:119 | a position that holds the id, with no earlier position holding it, is the one the scan returns |
| `Items.IndexOfStored` | backend/main.py:168-171 | under the invariant, scanning for a stored item's id finds that item's own position |
| `Items.ApplyUpdate` | backend/main.py:148-155 | the rebuilt item keeps the id; each supplied field replaces the old value and each omitted field keeps it; a valid item updated with an accepted body stays valid |
| `Items.ApplyUpdateIdempotent` | backend/main.py:149-155 | applying the same update body twice gives the same item as applying it once |
| `Items.RemoveAt` | backend/main.py:179 | removing a position shortens the list by one; entries before it stay in place and entries after it move up one, in the same order; the multiset loses exactly that entry |
| `Items.SeedWellFormed` | backend/main.py:25-30 | the seed items with next id 4 have distinct ids below 4, valid names and non-negative quantities |
| `Items.NextIdAbsent` | backend/main.py:101-105 | under the invariant, no stored item has the next id |
| `Items.AppendKeepsWellFormed` | backend/main.py:101-108 | appending a valid item that carries the next id, then advancing the counter, keeps the invariant; the scan for the new id finds it at the end |
| `Items.ReplaceKeepsWellFormed` | backend/main.py:151-157 | overwriting a position with a valid item of the same id keeps the invariant |
| `Items.ReplaceKeepsIndexOf` | backend/main.py:157 | overwriting a position with an item of the same id leaves the scan result unchanged for every id |
| `Items.RemoveKeepsWellFormed` | backend/main.py:179 | removing a position keeps the invariant |
| `Items.RemoveDropsId` | backend/main.py:168-179 | after the item at a position is removed, the scan for its id finds nothing |
| `Items.RemoveKeepsOtherIndexOf` | backend/main.py:179 | removing a position leaves every other id found, at the same item, one position earlier if it stood after the removed one; an absent id stays absent |
| `Store.SuccessCode` | backend/main.py:83-160 | a success is 201 exactly for create (line 92) and 204 exactly for delete (line 160); list, get and update (lines 83, 112, 129), which declare no status, get the framework's default 200 |
| `Store.StatusCode` | backend/main.py:121-125 | the code is a 2xx, namely the endpoint's success code, exactly for `Ok`; it is 404 exactly for `NotFound` and 422 exactly for `ValidationError` |
| `Store.Registry.constructor` | backend/main.py:25-30 | the registry starts valid, with the three seed items, next id 4, and ids 1 to 3 issued |
| `Store.Registry.ItemsCount` | backend/main.py:69 | the count is the number of live items |
| `Store.Registry.GetAll` | backend/main.py:83-90 | the list is exactly the stored items in insertion order |
| `Store.Registry.FindIndex` | backend/main.py:136-139 | the loop returns the first-match position `IndexOf` specifies |
| `Store.Registry.Get` | backend/main.py:112-127 | the result is `NotFound` exactly when no item has the id; otherwise it is the first item with that id; in a valid registry any item holding the id is the one returned; the state is not changed |
| `Store.Registry.Create` | backend/main.py:92-110 | a body failing validation gives `ValidationError` and changes nothing; otherwise the new item has the old next id and the given name and quantity, is appended after the unchanged earlier items, and the counter grows by exactly 1; the new id was never issued before, no live item held it, and it exceeds every id issued before; the scan for it finds the new item; the invariant is kept |
| `Store.Registry.Update` | backend/main.py:129-158 | an invalid body gives `ValidationError` and changes nothing; an absent id gives `NotFound` and changes nothing; otherwise only the first matching position is overwritten with the partially updated item, whose id is kept; the counter, the issued ids and every id's position stay as they were; the invariant is kept |
| `Store.Registry.Delete` | backend/main.py:160-179 | an absent id gives `NotFound` and changes nothing; otherwise exactly the matching entry is removed and the rest keep their order; the counter and the issued ids stay, so the freed id stays issued and is never handed out again; a later scan for the id finds nothing; every other id stays found exactly when it was found before, at the same item; the invariant is kept |

## Left out

- Application setup, the CORS middleware and the parsing of `ALLOWED_ORIGINS`, the startup and shutdown log lines, the server start and the environment settings (backend/main.py:32-61, 182-193). These are framework and I/O plumbing.
- The `root` endpoint and the constant parts of the health check (backend/main.py:64-81). Only `items_count` is modelled, as `ItemsCount`.
- Async execution and concurrent requests: the model runs one handler call at a time. The source has no locking.
- An explicit JSON `null` in an update body. The request validator lets it through, but then building the `Item` fails. The model treats `None` only as an omitted field.
- Type coercion by the request validator (for example, a float or a numeric string given as quantity), and anything else about JSON decoding. The bodies arrive already typed. The path id is also taken as an integer: a path segment that is not an integer gets a 422 from the framework before get, update or delete runs (backend/main.py:113, 130, 161), and the model does not capture that case.
- Name length is a count of characters (`seq<char>`). Whitespace is not trimmed, as in the source.
- The error detail messages (`Item with id … not found`): only the outcome kind is modelled.
