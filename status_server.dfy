/**
 * The service of server/libraryServer.go: the same table and the same five
 * operations as main.go, except that a refusal is a status error carrying
 * a numeric code, 400 for an id already in use and 404 for an absent id,
 * together with the error text.
 */
module StatusServer {
  import opened Catalog

  datatype Reply<T> = Ok(value: T) | StatusError(code: int, message: string)

  /** The in-memory table. */
  class BookStore {
    var books: map<int32, Book>

    constructor ()
      ensures books == map[]
    {
      books := map[];
    }
  }

  class LibraryServer {
    const store: BookStore

    constructor (store: BookStore)
      ensures this.store == store
    {
      this.store := store;
    }

    /** The table's invariant: each stored book's id is its key. */
    ghost predicate Valid()
      reads store
    {
      KeysMatchIds(store.books)
    }

    /** Inserts a book under its id; refuses an id already in use. */
    method CreateBook(book: Book) returns (r: Reply<Book>)
      modifies store
      ensures book.id in old(store.books) ==>
        r == StatusError(400, AlreadyExists.Message()) && store.books == old(store.books)
      ensures book.id !in old(store.books) ==>
        r == Ok(book) && store.books == old(store.books)[book.id := book]
      ensures old(Valid()) ==> Valid()
    {
      if book.id in store.books {
        return StatusError(400, AlreadyExists.Message());
      }
      store.books := store.books[book.id := book];
      r := Ok(book);
    }

    /** Looks a book up by id. */
    method GetBook(id: int32) returns (r: Reply<Book>)
      ensures id in store.books ==> r == Ok(store.books[id])
      ensures id !in store.books ==> r == StatusError(404, NotFound.Message())
    {
      if id !in store.books {
        return StatusError(404, NotFound.Message());
      }
      r := Ok(store.books[id]);
    }

    /** Replaces the whole record stored under the book's id; refuses an absent id. */
    method UpdateBook(book: Book) returns (r: Reply<Book>)
      modifies store
      ensures book.id !in old(store.books) ==>
        r == StatusError(404, NotFound.Message()) && store.books == old(store.books)
      ensures book.id in old(store.books) ==>
        r == Ok(book) && store.books == old(store.books)[book.id := book]
      ensures store.books.Keys == old(store.books).Keys
      ensures old(Valid()) ==> Valid()
    {
      if book.id !in store.books {
        return StatusError(404, NotFound.Message());
      }
      store.books := store.books[book.id := book];
      r := Ok(book);
    }

    /** Removes the book stored under an id; refuses an absent id. */
    method DeleteBook(id: int32) returns (r: Reply<bool>)
      modifies store
      ensures id !in old(store.books) ==>
        r == StatusError(404, NotFound.Message()) && store.books == old(store.books)
      ensures id in old(store.books) ==>
        r == Ok(true) && store.books == old(store.books) - {id}
      ensures old(Valid()) ==> Valid()
    {
      if id !in store.books {
        return StatusError(404, NotFound.Message());
      }
      store.books := store.books - {id};
      r := Ok(true);
    }

    /**
     * Lists every stored book once, in the table's (unspecified) iteration
     * order; `keys` records that order. The store's mutex is held throughout,
     * so the listing is a snapshot of one state of the table.
     */
    method ListBooks() returns (list: seq<Book>, ghost keys: seq<int32>)
      ensures Enumerates(store.books, keys, list)
      ensures store.books == map[] ==> list == []
      ensures forall b :: b in list <==> b in store.books.Values
      ensures Valid() ==> multiset(list) == multiset(store.books.Values)
    {
      list, keys := ListAll(store.books);
    }
  }

  /**
   * Update and Delete on an id that was never created are refused with 404
   * each time they are tried, and the table does not change.
   */
  method RetryOnMissing(s: LibraryServer, book: Book)
    returns (u1: Reply<Book>, u2: Reply<Book>, d1: Reply<bool>, d2: Reply<bool>)
    requires book.id !in s.store.books
    modifies s.store
    ensures u1 == u2 == StatusError(404, "book not found")
    ensures d1 == d2 == StatusError(404, "book not found")
    ensures s.store.books == old(s.store.books)
  {
    u1 := s.UpdateBook(book);
    u2 := s.UpdateBook(book);
    d1 := s.DeleteBook(book.id);
    d2 := s.DeleteBook(book.id);
  }

  /**
   * The sequence Create(1, "A"), Create(1, "B"), Update(1, "B"), Get(1),
   * Delete(1), Get(1) on a new server, and the reply to each call.
   */
  method Scenario()
    returns (r1: Reply<Book>, r2: Reply<Book>, r3: Reply<Book>,
             r4: Reply<Book>, r5: Reply<bool>, r6: Reply<Book>)
    ensures r1 == Ok(Book(1, "A", "", "", 0, ""))
    ensures r2 == StatusError(400, "book with the given ID already exists")
    ensures r3 == Ok(Book(1, "B", "", "", 0, ""))
    ensures r4 == Ok(Book(1, "B", "", "", 0, ""))
    ensures r5 == Ok(true)
    ensures r6 == StatusError(404, "book not found")
  {
    var store := new BookStore();
    var s := new LibraryServer(store);
    var a := Book(1, "A", "", "", 0, "");
    var b := Book(1, "B", "", "", 0, "");
    r1 := s.CreateBook(a);
    r2 := s.CreateBook(b);
    r3 := s.UpdateBook(b);
    r4 := s.GetBook(1);
    r5 := s.DeleteBook(1);
    r6 := s.GetBook(1);
  }
}
