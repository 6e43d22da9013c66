# Library catalogue service: a Dafny model

The service keeps a catalogue of books in memory. Each book is keyed by its
integer id. Clients call five operations:

- CreateBook inserts a book. It is refused when the id is already in use.
- GetBook returns the book stored under an id. It is refused when the id is absent.
- UpdateBook replaces the whole record stored under the book's id. It is refused when the id is absent.
- DeleteBook removes an id. It is refused when the id is absent.
- ListBooks returns every stored book.

The repository holds two near-identical copies of this service:

- `main.go` refuses with a plain error.
- `server/libraryServer.go` refuses with a status error that carries code 400 for an id already in use and 404 for an absent id.

Each copy keeps the table in a `BookStore` and reaches it through a
`LibraryServer` that points at that store. Every operation runs entirely
under the store's mutex, so the model treats each one as a single
sequential method.

Files:

- `catalog.dfy` (module `Catalog`) holds what the two copies share:
  - the `Book` record and Go's `int32` as the id type;
  - the two failure kinds with the exact error text;
  - the table's invariant `KeysMatchIds`: every book is stored under its own id;
  - `Enumerates`: what it means for a sequence to list a table, with one element per entry in any order;
  - `ListAll`, the loop both copies run to list the table;
  - the lemma that under the invariant such a listing is a permutation of the stored books.
- `main_server.dfy` (module `MainServer`) models `main.go`. Its `BookStore`
  class holds the `books` map. Its `LibraryServer` class holds the `store`
  and carries the five operations as methods that read or modify that store.
- `status_server.dfy` (module `StatusServer`) models `server/libraryServer.go`
  the same way. Its replies carry the status code and the message.

Each mutating method states the whole new table in both branches:

- On a refusal, the table is unchanged.
- On success, the table is the old one with exactly one key inserted, overwritten or removed.

Each mutating method also preserves the invariant that every book is stored
under its own id. Go iterates over a map in an unspecified order. ListBooks
models this with a loop (`Catalog.ListAll`) that picks any remaining key. A ghost output records
the order it picked. The method's contract states that the result lists
every entry exactly once, and that it is a permutation of the stored books
whenever the invariant holds.

A few client methods state, over the method contracts alone, the
sequential facts the service promises:

- a second Create of the same id fails;
- Create then Delete restores the table;
- Update and Delete on a missing id fail every time and change nothing;
- N Creates with distinct ids all succeed and are then listed exactly;
- the sequence Create, Create, Update, Get, Delete, Get returns the expected replies.

## Model

| member | source | states |
|---|---|---|
| `Catalog.ListingIsPermutation` | main.go:92-97 | When every book is stored under its own id, a sequence holding one element per table entry repeats no id and is, as a multiset, exactly the stored books |
| `Catalog.ListAll` | main.go:92-95 | Taking the keys one at a time in any order, collects one element per table entry. The list is empty for an empty table, and a book is in it exactly when it is stored. Under the invariant, the list is a permutation of the stored books |
| `MainServer.BookStore.constructor` | main.go:103-105 | The store starts with an empty table |
| `MainServer.LibraryServer.constructor` | main.go:108-110 | The server refers to the given store |
| `MainServer.LibraryServer.CreateBook` | main.go:27-40 | If the id is in use, refuses with AlreadyExists and leaves the table unchanged. Otherwise maps the id to the given book, touches no other key, returns that book, and keeps every book stored under its own id |
| `MainServer.LibraryServer.GetBook` | main.go:43-53 | Returns exactly the stored book when the id is present and NotFound when it is absent, without changing the table |
| `MainServer.LibraryServer.UpdateBook` | main.go:56-69 | If the id is absent, refuses with NotFound and inserts nothing. Otherwise replaces the whole record under that key, keeps the key set and the other entries, returns the new book, and keeps every book stored under its own id |
| `MainServer.LibraryServer.DeleteBook` | main.go:72-85 | If the id is absent, refuses with NotFound and changes nothing. Otherwise removes exactly that key, keeps every other entry, returns true, and keeps every book stored under its own id |
| `MainServer.LibraryServer.ListBooks` | main.go:88-98 | Lists each table entry exactly once, in some key order. The list has the table's size and is empty for an empty table. A book is in the list exactly when it is stored. Under the invariant, the list is a permutation of the stored books. The table does not change |
| `MainServer.CreateTwice` | main.go:31-39 | Of two Creates for the same id, the second is always refused with AlreadyExists, and the first succeeds exactly when the id was free |
| `MainServer.CreateThenDelete` | main.go:31-84 | Creating a free id and then deleting it both succeed and leave the table as it was |
| `MainServer.CreateAllThenList` | main.go:27-98 | On a new server, Creates of books with distinct ids all succeed, and ListBooks then returns exactly those books, in some order |
| `StatusServer.LibraryServer.CreateBook` | server/libraryServer.go:24-37 | If the id is in use, refuses with status 400 and the duplicate-id message and leaves the table unchanged. Otherwise inserts the book under its id, changes nothing else, returns it, and keeps every book stored under its own id |
| `StatusServer.LibraryServer.GetBook` | server/libraryServer.go:40-50 | Returns the stored book when the id is present and status 404 when it is absent, without changing the table |
| `StatusServer.LibraryServer.UpdateBook` | server/libraryServer.go:53-66 | If the id is absent, refuses with status 404 and changes nothing. Otherwise fully replaces the entry, keeps the key set, returns the new book, and keeps every book stored under its own id |
| `StatusServer.LibraryServer.DeleteBook` | server/libraryServer.go:69-82 | If the id is absent, refuses with status 404 and changes nothing. Otherwise removes only that key and returns true |
| `StatusServer.LibraryServer.ListBooks` | server/libraryServer.go:85-95 | Lists each table entry exactly once. The list is empty for an empty table. Under the invariant, the list is a permutation of the stored books |
| `StatusServer.RetryOnMissing` | server/libraryServer.go:53-82 | Update twice and Delete twice on an id never created are each refused with 404, and the table does not change |
| `StatusServer.Scenario` | server/libraryServer.go:24-82 | On a new server: Create(1, "A") returns the book, Create(1, "B") fails with 400, Update(1, "B") returns the new book, Get(1) returns "B", Delete(1) returns true, and Get(1) then fails with 404 |

## Left out

- The mutex, goroutines and interleavings. Every operation holds the lock for its whole check-then-write, so each is modelled as one atomic sequential method. The promise that exactly one of several concurrent Creates wins becomes `CreateTwice`.
- `log.Printf` calls. They are diagnostics only.
- `context.Context` parameters. The logic does not use them.
- `main()` in main.go: the gRPC server, the TCP listener and serving. Only the empty initial table it builds is modelled, as the constructors.
- client/main.go. It is a random load-test driver and is not part of this model.
- The generated protobuf and gRPC code, and the embedded unimplemented-service base. These are not part of this model. The id is Go's `int32`, the map's key type. `publicationYear` is an `int32` too, which is the type that client/main.go:20 converts to when it builds a book.
- Pointer aliasing of `*pb.Book`. The Go table stores the caller's pointer, so a later write through that pointer would change the stored record. The model stores books as immutable values. Its `LibraryServer` does keep a reference to a shared `BookStore`, as the Go struct does.
- Requests whose book pointer is nil. The Go code would dereference nil on `req.Book.Id`. The model's requests always carry a book.
- Wrapping replies in response messages. `CreateBookResponse{Book}` and similar wrappers become `Ok(book)`, and `DeleteBookResponse{Success: true}` becomes `Ok(true)`.
- A metrics interceptor (request counters, a latency histogram and error counters around every call). Neither main.go nor server/libraryServer.go implements one. main.go:113 builds the gRPC server without an interceptor option. So there is no code to model it against.
- A separate record-store layer with its own primitives. Neither Go copy has one: both access the map inside the service methods, and the model follows the code.
- gRPC's own status codes (AlreadyExists, NotFound). `server/libraryServer.go` passes the HTTP-style numbers 400 and 404 to `status.Error`, and the model uses those numbers as written.
