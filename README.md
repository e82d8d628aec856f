# Item registry of the FastAPI demo service, in Dafny

The service keeps its items in one module-level list, `items_db`, seeded with two
records (Laptop with id 1, Mouse with id 2). Five handlers work on that list:
list returns it, get searches it by id, create appends a record whose id is
`max(existing ids, default=0) + 1`, update overwrites the slot holding an id,
and delete pops that slot and returns the record. A missing id raises 404
"Item not found". The metrics endpoint reports the list's length as
`total_items`.

The model has four modules:

- `Items` (items.dfy): the `Item` and `ItemCreate` records, the not-found
  outcome `Result`, the record built from a request, and the seed list. The
  float `price` and the `datetime` `created_at` are the type parameters `Price`
  and `Time`, since they are only stored and copied.
- `Store` (store.dfy): the list as a value. `MaxId` is the id computation,
  `FirstIndex` is where the search loops stop, and `Get`, `Created`, `Updated`,
  `UpdateReply` and `Deleted` give each handler's effect. The lemmas state what
  each handler promises. `WellFormed` is the invariant of every reachable list:
  ids are pairwise distinct and positive, and every `created_at` is the one
  default value.
- `Registry` (registry.dfy): the class `ItemRegistry` holding `items` and the
  const `stamp`. Its handler methods change `items` in place. Each one is proved
  against the `Store` functions and keeps `Valid()`.
- `Traces` (traces.dfy): sequences of create/update/delete calls. It proves that
  the invariant survives any sequence, how the length relates to the successful
  creates and deletes, and that Get after Create returns the created record.
  It also covers the seeded store's scenarios and the reuse of a freed id.

Three consequences of the code are worth stating on their own:

- Update does not refresh `created_at`. No handler passes it: records are
  built with `Item(id=..., **item.dict())` (main.py:95, main.py:104). So every
  record carries the class-level default, which is evaluated once, when the
  class is defined (main.py:32). The model keeps that value as `stamp` and
  proves that every item carries it.
- Ids are not reserved. Create recomputes the maximum over the ids still
  present (main.py:94). After the item with the highest id is deleted, the
  next create hands that id out again. `Traces.IdReusedAfterDelete` proves
  this from the seed.
- An update of a created id replaces that record. So
  `Traces.GetAfterCreateAndCalls` proves Get after Create returns the created
  record only when the calls in between neither update nor delete that id.

The three search loops differ in form. `get_item` iterates over the items and
returns the item (main.py:86-88). `update_item` and `delete_item` iterate with
`enumerate` and use the index (main.py:102-103, main.py:112-113). All three
stop at the first entry carrying the id. One search method,
`ItemRegistry.Find`, stands for all three: it returns that first index, and
get, update and delete all call it.

## Model

| member | source | states |
|---|---|---|
| `Store.MaxId` | main.py:94 | `max(ids, default=0)`: at least every stored id, equal to one of them when the list is non-empty, 0 when it is empty |
| `Store.FirstIndex` | main.py:86-88 | the search stops at an index holding `id` with no earlier index holding it, or finds none when no entry has `id` |
| `Store.Get` | main.py:84-89 | the lookup succeeds exactly when some entry has the id, and then returns the first entry of the list with that id |
| `Store.GetFindsUnique` | main.py:86-88 | with distinct ids, the search stops at the one index carrying the id and Get returns that entry |
| `Store.CreateAppends` | main.py:92-97 | the new id is `max + 1`, 1 on an empty list, and above every stored id; the record copies name, description and price from the request; it is appended, the length grows by one and earlier entries are unchanged |
| `Store.CreateKeepsWellFormed` | main.py:94-96 | create keeps ids pairwise distinct and positive and every `created_at` the shared default |
| `Store.GetAfterCreate` | main.py:94-97 | on any list, Get on the new id right after create returns the created record |
| `Store.UpdateOverwrites` | main.py:100-106 | update of a present id overwrites only that slot, with the same id and the request's fields; the length and all other entries are unchanged; the reply is the new record, the invariant holds, and Get on the id returns the new record |
| `Store.PoppedAt` | main.py:114 | `pop(i)` leaves a list one shorter, with the entries before `i` in place and the later ones shifted down by one, and removes exactly one copy of the popped entry |
| `Store.DeleteRemoves` | main.py:110-115 | delete of a present id pops exactly the entry Get finds and returns it; the rest keep their relative order, the length drops by one, the invariant holds, and a following Get on the id is not-found |
| `Store.AbsentIdUnchanged` | main.py:99-116 | for an id no entry has, get, update and delete answer not-found, and update and delete leave the list unchanged |
| `Registry.ItemRegistry.constructor` | main.py:40-43 | the store starts as the two seeded records and satisfies the invariant |
| `Registry.ItemRegistry.GetItems` | main.py:78-81 | list returns the whole list in insertion order |
| `Registry.ItemRegistry.Find` | main.py:86-88 | the search loops of get (main.py:86-88), update (main.py:102-103) and delete (main.py:112-113): returns the first index holding the id, or none |
| `Registry.ItemRegistry.GetItem` | main.py:83-89 | get returns the first entry with the id, or not-found |
| `Registry.ItemRegistry.HighestId` | main.py:94 | the loop over the ids computes `max(ids, default=0)` |
| `Registry.ItemRegistry.CreateItem` | main.py:91-97 | appends the record with id `max + 1` and the request's fields, returns it, and keeps the invariant |
| `Registry.ItemRegistry.UpdateItem` | main.py:99-107 | the list becomes the one with the matching slot overwritten, or stays as it was; the reply is the new record or not-found; the invariant is kept |
| `Registry.ItemRegistry.DeleteItem` | main.py:109-116 | the list becomes the one with the matching entry popped, or stays as it was; the reply is the popped entry or not-found; the invariant is kept |
| `Registry.ItemRegistry.ReadMetrics` | main.py:57-64 | `total_items` equals the length of the list; `uptime` and `requests_total` are the fixed strings |
| `Traces.StepKeepsWellFormed` | main.py:92-116 | each of create, update and delete keeps ids distinct and positive |
| `Traces.RunKeepsWellFormed` | main.py:92-116 | after any sequence of calls from a well-formed list, ids are still pairwise distinct and positive |
| `Traces.StepLength` | main.py:96-114 | one create grows the list by one, one delete that finds its id shrinks it by one, and anything else keeps its length |
| `Traces.RunLength` | main.py:61 | after any sequence of calls, the length reported by list and metrics is the starting length plus the creates minus the successful deletes |
| `Traces.StepKeepsUntouched` | main.py:100-116 | an update or delete of another id, and any create, leave a stored record in the list |
| `Traces.UntouchedStays` | main.py:100-116 | a record stays in the list through any calls that neither update nor delete its id |
| `Traces.GetAfterCreateAndCalls` | main.py:84-97 | Get on a created id returns the created record after any calls that neither update nor delete that id |
| `Traces.SeedScenarios` | main.py:40-43 | the seeded store is well formed with ids 1 (Laptop) and 2 (Mouse); creating "Keyboard" gives id 3 and no description; deleting 1 makes Get on 1 not-found; updating 2 to "Mouse Pro" keeps id 2 |
| `Traces.IdReusedAfterDelete` | main.py:94 | after deleting id 2 from the seeded store, the next create hands out id 2 again |

## Left out

- The FastAPI application, the CORS middleware and the uvicorn start-up on `PORT` (main.py:9-24, main.py:118-120): framework and I/O set-up.
- The `/health` and `/` endpoints (main.py:46-54, main.py:67-76): fixed payloads and a read of the wall clock.
- `datetime.now()`: the value the `created_at` default is evaluated to is the constructor parameter `stamp`. The time it stands for is not modelled.
- Float `price`: it is a type parameter. The seeded prices 2500.0 and 25.0 are constructor parameters, because the model does no float arithmetic.
- The text of delete's confirmation message (`"Item {id} deleted"`): only the popped record in that reply is modelled.
- `async` handlers and concurrent requests on the unguarded list: calls are taken one at a time.
- Pydantic validation and coercion of request bodies, JSON encoding, and HTTP status codes: not-found is the `NotFound` variant of `Result`.
