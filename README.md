# In-memory item store

This project models the in-memory variant of a small CRUD HTTP service for one
resource, the *item* (`id`, `name`, `description`). The service keeps two pieces
of process-wide state: an ordered list of item records (`items_db`) and the
integer id the next create hands out (`item_id_counter`). Five handlers work on
that state:

- **read_items** returns the whole list.
- **read_item** scans for the first record with the id, or answers 404.
- **create_item** appends a record whose id is the current counter, then adds one to the counter.
- **update_item** scans for the id. It answers 404 if the id is absent. Otherwise it overwrites that slot with the same id and the new fields.
- **delete_item** scans for the id. It answers 404 if the id is absent. Otherwise it pops that slot.

The model is imperative, like the source. `App.ItemStore` has fields `items: seq<Item>` and
`counter: int`. Each mutating handler is a method with a `modifies this` frame. The two read
handlers have no `modifies` clause, so they leave the store unchanged. Each handler returns a
`Response`: either `Success(status, body)`, with status `Ok` (200), `Created` (201) or
`NoContent` (204), or `NotFound(detail)` (404). The detail string is exactly the source's
`"Item with id {item_id} not found"`, and `Decimal` models Python's `str(int)` for it. The
three linear scans are one loop, `FindIndex`, proved against the recursive search function
`Items.FirstIndex`.

The store's invariant is `ItemStore.Valid()`:

- ids strictly increase in list order, so they are pairwise distinct;
- every id is below the counter;
- the counter is one more than the number of creates so far;
- the list holds exactly the keyed collection (`History.Model`) that the log of mutating calls leaves behind.

That log is a ghost field, `Requests`. The `History` lemmas describe the keyed collection in
terms of the log alone:

- an item created and not deleted since is present, with the fields of its latest write;
- an item once deleted never comes back;
- ids are handed out in strictly increasing order, so none is given twice.

`Items.ListingDeterminesList` shows that an ascending list is fixed by its keyed view. So the
list `read_items` returns is determined by the log (`App.SameLogSameList`).

Modules: `Wrappers` (Option), `Decimal` (number rendering and the parser that inverts it),
`Items` (records, responses, the search, the keyed view of a list), `History` (the request
log and its meaning), `App` (the store class and a client run, `Scenario`, that
walks create, read, update, delete and read again).

Notes on the source:

- `read_item` tests `if not item:`. A found record is a non-empty dict and never falsy, so
  this is exactly the "no match" test, and the model treats it that way.
- The in-memory variant has no storage that can fail. So no handler here produces the 500
  internal-error outcome that the database-backed variant has.
- `delete_item` returns `None` with status 204. The model returns `Success(NoContent, ())`.

## Model

| member | source | states |
|---|---|---|
| App.ItemStore.constructor | app.py:8-10 | the store starts with an empty list, counter 1, an empty log, and satisfies the invariant |
| App.ItemStore.FindIndex | app.py:57 | the loop finds the first slot whose id matches, or reports none, agreeing with `Items.FirstIndex` |
| App.ItemStore.ReadItems | app.py:29-31 | returns 200 with the whole current list; that list is ascending by id and holds exactly the log's keyed collection |
| App.ItemStore.ReadItem | app.py:33-41 | succeeds exactly when the id is live, returning 200 and the stored record with that id; otherwise 404 with the "Item with id N not found" detail, and no record holds that id |
| App.ItemStore.CreateItem | app.py:43-53 | returns 201 and a record whose id is the counter before the call, with the given fields; the record is appended, earlier records are unchanged, every earlier id is smaller, and the counter grows by exactly one; the invariant is kept |
| App.ItemStore.UpdateItem | app.py:55-70 | an absent id gives 404 with list and counter unchanged; a present id has only its slot replaced by the same id with the new fields; the counter is unchanged and the keyed collection rebinds just that id; the invariant is kept |
| App.ItemStore.DeleteItem | app.py:72-82 | an absent id gives 404 with nothing changed; a present id has only its slot popped, the rest keeping their order, and answers 204; afterwards the id is not live; the invariant is kept |
| App.SameLogSameList | app.py:30-31 | two valid stores that received the same calls hold the same list in the same order |
| Items.FirstIndex | app.py:57 | the result is the first index whose record has the id; none is returned exactly when no record has it |
| Items.DetailRoundTrip | app.py:39 | the detail text `NotFoundDetail` builds names exactly the id that was asked for: it parses back to that id |
| Items.Response.Code | app.py:37-43 | a success answers with a 2xx code (200 for the `Ok` status, 201 exactly for `Created`, 204 exactly for `NoContent`), and a not-found answers 404 |
| Items.ListingAbsent | app.py:35 | an id held by no record is not a key of the keyed view |
| Items.ListingAt | app.py:35 | in an ascending list, each record is what the keyed view maps its id to |
| Items.ListingKey | app.py:35 | each key of the keyed view is the id of some record in the list |
| Items.FirstIndexListing | app.py:57 | on an ascending list the scan finds an id exactly when the keyed view has it, and finds that key's record |
| Items.ListingAppend | app.py:51 | appending a record whose id is above all others keeps the list ascending and adds just that key |
| Items.ListingReplace | app.py:69 | overwriting a slot with a record of the same id rebinds just that key |
| Items.RemovedAt | app.py:81 | popping a slot leaves the other records in their order, so the list stays ascending |
| Items.ListingRemove | app.py:81 | popping a slot of an ascending list removes just that record's key |
| Items.ListingDeterminesList | app.py:30-31 | two ascending lists with the same keyed view are the same list |
| Decimal.NatToString | app.py:39 | renders a non-negative int as digits only, a single digit exactly below ten, with no leading zero (it starts with 0 only for zero) |
| Decimal.NatToStringRoundTrip | app.py:39 | the value of the rendered digits is the number rendered |
| Decimal.IntToStringRoundTrip | app.py:39 | `IntToString` renders any int with a leading minus exactly for negatives and no zero after that minus, and parsing the rendering gives that int back |
| History.CreatesPrefix | app.py:52 | the create count, and so the counter, never goes down as calls are made |
| History.IdAssignedBelow | app.py:47 | every id handed out so far lies between 1 and the number of creates |
| History.IdsStrictlyIncrease | app.py:46-52 | a later create is given a strictly larger id than an earlier one, so no id is handed out twice |
| History.EveryIdAssigned | app.py:46-52 | every value from 1 up to the create count was handed out by some create |
| History.ModelDomain | app.py:46-52 | every live key is an id already handed out, and is bound to a record with that id |
| History.CreatedAndNotDeletedIsLive | app.py:43-82 | an item created and not deleted since is live, holding the fields of its create or of the latest update of it |
| History.DeletedStaysDeleted | app.py:81 | once an item is deleted, no later call brings its id back |
| History.CreatedIsLiveIffNotDeleted | app.py:43-82 | a created item is live exactly when no delete of its id followed |

## Left out

- The other variant of the service, backed by SQL Server through `pyodbc` (main.py), is not part of this model. Its behaviour lives in the database.
- Configuration loading and connection-string assembly (config.py) are not modelled: they are environment glue.
- The connectivity smoke-test script (test_config.py) is not modelled: it only does network I/O.
- HTTP routing and the `/` redirect to `/docs` are not modelled: they are framework plumbing.
- Request-body validation by pydantic is not modelled. Bodies arrive already typed as `ItemCreate`, and path ids as `int`.
- Starting the server with uvicorn and JSON serialisation are not modelled.
- Concurrent access to the unguarded module globals is left out. The model covers single-threaded, sequential calls only.
- App.ItemStore.ReadItems: returns the list as a value. The source returns the very list object `items_db`, and that aliasing is not modelled.
