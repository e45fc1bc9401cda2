# Beer stock service — validation core

A model of the stock service of the beer-stock REST application: the rules
that sit between the HTTP controller and the repository. The repository is
an immutable `map<int, Item>` from id to item. An item has a name, brand,
ceiling (`max`), current quantity and beer type. Each operation returns a
`Result` in place of the Java checked exceptions. The mutating operations
also return the store afterwards, so "a failed call changes nothing" is a
stated fact and not an assumption.

- `Beers` (beers.dfy): the item, the record returned to callers (item plus id), and the stock bound `0 <= quantity <= max`.
- `StockErrors` (errors.dfy): `AlreadyRegistered(name)`, `NotFound(by name or by id)`, and `StockExceeded(id, delta, max, current)`. The last one carries the four values the Java exception's constructor takes (src/main/java/one/digitalinnovation/beerstock/exception/BeerStockExceededException.java:9). Decrement reuses it for "below zero".
- `Stores` (stores.dfy): the store, its invariant `Valid` (every item in bounds, names unique), and what a full listing is.
- `BeerService` (service.dfy): create, find by name, list all, delete by id, increment, decrement.
- `StockProperties` (properties.dfy): lemmas relating several operations.
- `StockMachine` (machine.dfy): the service as a state machine over a stream of mutating requests. The persistence layer's id counter travels alongside the store.

The service class itself is not part of this model. Its behaviour is taken
from what its unit test asserts against a mocked repository. Where the
general rule is not pinned down by the test's constants (the test builder's
default quantity and ceiling are not visible), the rule is stated in general
form: an increment is refused when `quantity + delta > max`, and a decrement
when `quantity - delta < 0`. The test's post-conditions (result equals old
plus or minus delta, is at most `max`, is at least 0) follow from it. The
controller test computes a decremented quantity as `quantity + delta`
(src/test/java/one/digitalinnovation/beerstock/controller/BeerControllerTest.java:235).
Its service is mocked, so that line says nothing about decrement; the model
follows the service test and subtracts.

## Model

| member | source | states |
|---|---|---|
| BeerService.Create | src/test/java/one/digitalinnovation/beerstock/service/BeerServiceTest.java:42-69 | A create fails with AlreadyRegistered(name) exactly when some stored item has that name, and then the store is unchanged. Otherwise it returns the input item's data under its id, adds exactly that entry and keeps every other one. On a valid store with an in-bounds item the result is valid. |
| BeerService.FindByName | src/test/java/one/digitalinnovation/beerstock/service/BeerServiceTest.java:71-96 | Succeeds exactly when some stored item has the name, and returns a record the store holds under that name. Otherwise it fails with NotFound(name). |
| BeerService.ListAll | src/test/java/one/digitalinnovation/beerstock/service/BeerServiceTest.java:98-110 | Returns every stored entry exactly once, with its content unchanged, and nothing else. An empty store gives an empty list, not an error. |
| Stores.ListingRebuildsStore | src/test/java/one/digitalinnovation/beerstock/service/BeerServiceTest.java:98-110 | A listing loses nothing: reading the returned records back into a map gives exactly the listed store. |
| BeerService.DeleteById | src/test/java/one/digitalinnovation/beerstock/service/BeerServiceTest.java:112-139 | Fails with NotFound(id) exactly when the id is absent, and then the store is unchanged. Otherwise it removes exactly that id and leaves every other entry as it was. Validity is preserved. |
| BeerService.Increment | src/test/java/one/digitalinnovation/beerstock/service/BeerServiceTest.java:141-181 | An absent id gives NotFound(id). A delta taking quantity above max gives StockExceeded(id, delta, max, current), with the store unchanged. Success sets quantity to old + delta, at most max, and changes no other field or entry. Validity is preserved. |
| BeerService.Decrement | src/test/java/one/digitalinnovation/beerstock/service/BeerServiceTest.java:183-223 | An absent id gives NotFound(id). A delta taking quantity below 0 gives the same StockExceeded error, with the store unchanged. Success sets quantity to old - delta, at least 0, and changes no other field or entry. Validity is preserved. |
| StockProperties.CreatedItemIsFound | src/test/java/one/digitalinnovation/beerstock/service/BeerServiceTest.java:42-83 | After creating an item under a new name, that name is present and every stored record carrying it is the created one, so find-by-name returns the created data. |
| StockProperties.NameIdentifiesRecord | src/test/java/one/digitalinnovation/beerstock/service/BeerServiceTest.java:71-83 | In a valid store two records with the same name are the same record, so find-by-name has a single possible answer. |
| StockProperties.CreateThenDeleteRestores | src/test/java/one/digitalinnovation/beerstock/service/BeerServiceTest.java:112-126 | Deleting the id a create just used gives back the store from before the create. |
| StockProperties.DeletedItemIsGone | src/test/java/one/digitalinnovation/beerstock/service/BeerServiceTest.java:112-139 | After a delete, a second delete, an increment and a decrement on that id all fail with NotFound(id). In a valid store, the deleted name is no longer present. |
| StockProperties.IncrementAcceptsUpToCeiling | src/test/java/one/digitalinnovation/beerstock/service/BeerServiceTest.java:169-181 | On a present id an increment succeeds if and only if the delta is at most max - quantity. |
| StockProperties.DecrementAcceptsUpToStock | src/test/java/one/digitalinnovation/beerstock/service/BeerServiceTest.java:211-223 | On a present id a decrement succeeds if and only if the delta is at most the current quantity. |
| StockProperties.IncrementThenDecrementRestores | src/test/java/one/digitalinnovation/beerstock/service/BeerServiceTest.java:141-198 | For an in-bounds item, decrementing by the delta a successful increment added succeeds and gives back the original store and item. |
| StockProperties.DecrementThenIncrementRestores | src/test/java/one/digitalinnovation/beerstock/service/BeerServiceTest.java:141-198 | For an in-bounds item, incrementing by the delta a successful decrement took succeeds and gives back the original store and item. |
| StockProperties.TestedBoundaries | src/test/java/one/digitalinnovation/beerstock/service/BeerServiceTest.java:28-32 | With quantity 10 and max 50: +40 succeeds and reaches 50, +41 fails with StockExceeded(id, 41, 50, 10). -10 succeeds and reaches 0, -11 fails with StockExceeded(id, 11, 50, 10). Failures leave the store unchanged. |
| StockProperties.BoundariesDetermineItem | src/test/java/one/digitalinnovation/beerstock/service/BeerServiceTest.java:28-32 | Conversely, if +40 and -10 are accepted on an item while +41 and -11 are refused, that item holds quantity 10 with max 50. So the tests' constants fix the boundary exactly. |
| StockProperties.UncheckedCreateBreaksBounds | src/test/java/one/digitalinnovation/beerstock/service/BeerServiceTest.java:42-55 | Create checks only the name: a new item with quantity 10 and max 5 is stored as given, and the resulting store is not valid. |
| StockMachine.Apply | src/test/java/one/digitalinnovation/beerstock/service/BeerServiceTest.java:42-223 | One mutating request keeps every stored id below the next id to be assigned, adds at most that one id, and preserves validity when a new item is in bounds. |
| StockMachine.Run | src/test/java/one/digitalinnovation/beerstock/service/BeerServiceTest.java:42-223 | A stream of requests with positive deltas keeps stored ids below the counter, and the counter never goes back. |
| StockMachine.RunPreservesValid | src/test/java/one/digitalinnovation/beerstock/service/BeerServiceTest.java:42-223 | From a valid store, any stream of requests with positive deltas and in-bounds new items (an assumption the service does not check) ends in a valid store, whichever requests succeed or fail. |

## Left out

- The HTTP controller (routing, JSON, status codes) is not modelled. Its test runs against a mocked service and has no logic of its own.
- The exception's message text and its BAD_REQUEST annotation are not modelled; only the error's payload is.
- Persistence, transactions, the entity/DTO mapper and dependency injection are not modelled. The repository is the map. Id generation is a parameter: Create takes the id the persistence layer assigns and requires it to be unused, and StockMachine keeps a counter for it.
- Concurrent read-modify-write on one id is not modelled. The service does no locking, and each operation here is one atomic step.
- Create: does not check the new item's quantity against its ceiling, because the create rule checks only the name. Validity after a create is therefore stated only for in-bounds items. It is assumed that some layer before the service keeps new items in bounds, but no such check appears in the source. UncheckedCreateBreaksBounds shows that an out-of-bounds create succeeds and leaves an invalid store.
- Increment: quantities and deltas are unbounded integers. Java's 32-bit int wrap-around of quantity + delta is not modelled, because the service code that computes the sum is not part of this model.
- Decrement: the same unbounded-integer simplification as Increment.
- Increment and Decrement require a positive delta. The tests only use positive deltas, and the invariant depends on it.
- ListAll returns the entries in an unspecified order, like the repository's findAll; no order is promised.
- The beer type is a string that is never inspected. The enumeration's constants are not part of this model.
