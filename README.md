# Clients service entity store, modelled in Dafny

The Clients service keeps its `Client` records in an in-memory `Repository`
(`src/repository.js`). The repository is an ordered collection with five operations:
- `fetchAll` returns the collection.
- `getById` returns the first entity whose id matches.
- `add` appends an entity.
- `remove` drops every entity with a given id and keeps the rest in order.
- `clear` empties the collection.

`repository.dfy` models it as the class `ClientStore.Repository`. Its single field
`entities: seq<Client>` is the collection. `Add`, `Remove` and `Clear` are methods that
reassign that field. Their postconditions give the new contents exactly. `FetchAll` and
`GetById` are functions that read the field, so they change nothing.

The two array library calls the source relies on are given as specification functions:
- `Find` is `Array.prototype.find` with the predicate `id == entity.id`.
- `Without` is `Array.prototype.filter` with the predicate `entity.id != id`.

The lemmas about these functions state what the store promises:
- first match after an append;
- removal keeps order and multiplicities;
- removing an absent id changes nothing;
- removal is idempotent;
- removing one id does not affect lookups of other ids;
- id uniqueness is preserved by fresh appends and by removal.

`Client` has `id`, `firstName`, `lastName` and `age`, as in the consumer fixture. The store
only ever inspects `id`. `Fixture` is that three-client dataset. `FixtureScenario` is a
verified walk through it: load the three clients, look up id 1 and id 999, remove id 1
twice, then clear. It carries no contract of its own; its assertions follow from the
contracts of the store's members.

The store does not check that ids are unique, so the model allows duplicate ids. Callers
are expected to add only fresh ids. Here uniqueness is the optional predicate `UniqueIds`,
with lemmas showing which operations preserve it.

## Model

| member | source | states |
|---|---|---|
| `ClientStore.Repository.constructor` | src/repository.js:2-4 | a new repository holds no entities |
| `ClientStore.Repository.FetchAll` | src/repository.js:6-8 | returns the current collection in insertion order; as a function of the state it modifies nothing |
| `ClientStore.Repository.GetById` | src/repository.js:10-12 | the result is `Find` over the current entities (first match in order, or nothing); reading it modifies nothing |
| `ClientStore.Find` | src/repository.js:11 | nothing is returned exactly when no entity has the id; otherwise the result is the entity at the first position whose id matches |
| `ClientStore.Repository.Add` | src/repository.js:14-16 | the new collection is the old one with `e` appended last; when no earlier entity had `e.id`, `GetById(e.id)` now returns `e`; lookups of ids already present are unchanged |
| `ClientStore.Repository.Remove` | src/repository.js:18-20 | the new collection is `Without(old, id)`; afterwards `GetById(id)` returns nothing; removing an absent id leaves the collection unchanged; lookups of every other id return what they returned before |
| `ClientStore.Repository.Clear` | src/repository.js:22-24 | the collection becomes empty and every lookup returns nothing |
| `ClientStore.Without` | src/repository.js:19 | the result never grows and strictly shrinks when the id is present; no remaining entity has the id; an entity is kept exactly when it was present and its id differs |
| `ClientStore.WithoutCounts` | src/repository.js:19 | every entity with another id keeps its number of occurrences, and every entity with the id has none |
| `ClientStore.WithoutAppend` | src/repository.js:19 | filtering a concatenation is the concatenation of the filtered parts, so kept entities keep their relative order |
| `ClientStore.WithoutAbsent` | src/repository.js:18-20 | removal leaves the collection unchanged if and only if no entity has the id |
| `ClientStore.WithoutIdempotent` | src/repository.js:18-20 | removing an id twice gives the same collection as removing it once |
| `ClientStore.FindWithoutOther` | src/repository.js:10-20 | after removing one id, a lookup of any other id finds the same entity as before |
| `ClientStore.FindAppend` | src/repository.js:10-16 | after an append, a lookup returns the earlier first match if there is one, else the appended entity if its id matches, else nothing |
| `ClientStore.AddFreshKeepsUnique` | src/repository.js:14-16 | appending an entity whose id is not yet stored keeps ids unique |
| `ClientStore.WithoutKeepsUnique` | src/repository.js:18-20 | removal keeps ids unique |
| `ClientStore.UniqueFind` | src/repository.js:10-12 | with unique ids, a lookup returns `c` if and only if `c` is stored and has that id |
| `ClientStore.FixtureFacts` | __tests__/contract/consumer/ClientsConsumer.spec.js:27-44 | the three-client fixture has unique ids; id 1 finds Lisa Simpson; id 999 finds nothing; removing id 1 leaves clients 2 and 3 in order |

## Left out

- The HTTP resource handlers are not modelled: id assignment as maximum plus one, the PUT merge, and the 400 and 404 responses. Their code is not among the files modelled here. The tests show only their expected responses.
- The seed loader (`importData`, imported from `src/provider`) is not modelled; its code is not among the files modelled here. No named-state handlers appear in the files modelled here: the provider verification passes none.
- JavaScript's loose equality (`==`, `!=`) between numeric strings and numbers is not modelled. Ids are `int`, and callers are assumed to turn path parameters into numbers before they reach the store.
- `fetchAll` returns the live array in the source. Here it returns a `seq` snapshot. Aliasing between that array and later mutations is not modelled.
- `add` pushes a reference to the caller's object, and `getById` returns the stored object itself. Here a `Client` is a value, so a caller that mutates an added or returned object, and thereby the store, is not modelled.
- Entries that are not client records are not modelled. In the source, `add` pushes any value at all. Once a `null` or `undefined` entry is stored, `remove` always throws a TypeError, because `filter` reads `entity.id` of every entry. `getById` throws only when its scan reaches that entry, that is, when no earlier entry matches.
- Entries without an `id` are not modelled. Such an entry is never found and always kept when the argument is a number. Under JavaScript's `==`, however, `getById(undefined)` or `getById(null)` returns the first such entry, and `remove(undefined)` or `remove(null)` drops all of them.
- Non-primitive arguments are not modelled. When the id passed to `getById` or `remove` is an object, `==` and `!=` first convert it to a primitive, and that conversion can throw (an object with no prototype, for example). A `Client` here always has an integer id, and the argument is an integer, so none of these cases can be stated.
- Ids are JavaScript numbers (doubles) in the source, not unbounded integers. A `NaN` id is never found and never removed, non-integer ids are possible, and ids above 2^53 lose precision. Ids here are `int`, matching the integer ids of the fixture.
- `Client` has fixed fields. The source stores whatever object it is given, and the request bodies in the tests omit some of these fields. The store never looks at those fields.
- The contract-testing harness is not modelled: the mock server, provider verification, server start and stop, and test-runner timeouts. These are test I/O.
