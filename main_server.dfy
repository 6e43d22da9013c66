/**
 * The service of main.go: a table of books held by a BookStore, reached
 * through a LibraryServer that points at it. Each operation runs under the
 * store's mutex in the original, so here each is one sequential method.
 * Failures are plain errors, told apart by their kind (and message).
 */
module MainServer {
  import opened Catalog

  datatype Reply<T> = Ok(value: T) | Fail(failure: Failure)

  /** The in-memory table. */
  class BookStore {
    var books: map<int32, Book>

    constructor ()
      ensures books == map[]
    {
      books := map[];
    }
  }

  class LibraryServer {
    const store: BookStore

    constructor (store: BookStore)
      ensures this.store == store
    {
      this.store := store;
    }

    /** The table's invariant: each stored book's id is its key. */
    ghost predicate Valid()
      reads store
    {
      KeysMatchIds(store.books)
    }

    /** Inserts a book under its id; refuses an id already in use. */
    method CreateBook(book: Book) returns (r: Reply<Book>)
      modifies store
      ensures book.id in old(store.books) ==>
        r == Fail(AlreadyExists) && store.books == old(store.books)
      ensures book.id !in old(store.books) ==>
        r == Ok(book) && store.books == old(store.books)[book.id := book]
      ensures old(Valid()) ==> Valid()
    {
      if book.id in store.books {
        return Fail(AlreadyExists);
      }
      store.books := store.books[book.id := book];
      r := Ok(book);
    }

    /** Looks a book up by id. */
    method GetBook(id: int32) returns (r: Reply<Book>)
      ensures id in store.books ==> r == Ok(store.books[id])
      ensures id !in store.books ==> r == Fail(NotFound)
    {
      if id !in store.books {
        return Fail(NotFound);
      }
      r := Ok(store.books[id]);
    }

    /** Replaces the whole record stored under the book's id; refuses an absent id. */
    method UpdateBook(book: Book) returns (r: Reply<Book>)
      modifies store
      ensures book.id !in old(store.books) ==>
        r == Fail(NotFound) && store.books == old(store.books)
      ensures book.id in old(store.books) ==>
        r == Ok(book) && store.books == old(store.books)[book.id := book]
      ensures store.books.Keys == old(store.books).Keys
      ensures old(Valid()) ==> Valid()
    {
      if book.id !in store.books {
        return Fail(NotFound);
      }
      store.books := store.books[book.id := book];
      r := Ok(book);
    }

    /** Removes the book stored under an id; refuses an absent id. */
    method DeleteBook(id: int32) returns (r: Reply<bool>)
      modifies store
      ensures id !in old(store.books) ==>
        r == Fail(NotFound) && store.books == old(store.books)
      ensures id in old(store.books) ==>
        r == Ok(true) && store.books == old(store.books) - {id}
      ensures old(Valid()) ==> Valid()
    {
      if id !in store.books {
        return Fail(NotFound);
      }
      store.books := store.books - {id};
      r := Ok(true);
    }

    /**
     * Lists every stored book once, in the table's (unspecified) iteration
     * order; `keys` records that order. The store's mutex is held throughout,
     * so the listing is a snapshot of one state of the table.
     */
    method ListBooks() returns (list: seq<Book>, ghost keys: seq<int32>)
      ensures Enumerates(store.books, keys, list)
      ensures store.books == map[] ==> list == []
      ensures forall b :: b in list <==> b in store.books.Values
      ensures Valid() ==> multiset(list) == multiset(store.books.Values)
    {
      list, keys := ListAll(store.books);
    }
  }

  /**
   * Two Creates for the same id, one after the other (the mutex makes any
   * two concurrent ones run so): the second never wins, and the first wins
   * exactly when the id was free.
   */
  method CreateTwice(s: LibraryServer, first: Book, second: Book)
    returns (r1: Reply<Book>, r2: Reply<Book>)
    requires first.id == second.id
    modifies s.store
    ensures r1.Ok? <==> first.id !in old(s.store.books)
    ensures r2 == Fail(AlreadyExists)
    ensures first.id in old(s.store.books) ==> s.store.books == old(s.store.books)
    ensures first.id !in old(s.store.books) ==>
      s.store.books == old(s.store.books)[first.id := first]
  {
    r1 := s.CreateBook(first);
    r2 := s.CreateBook(second);
  }

  /** Creating a fresh id and deleting it again leaves the table as it was. */
  method CreateThenDelete(s: LibraryServer, book: Book)
    returns (r1: Reply<Book>, r2: Reply<bool>)
    requires book.id !in s.store.books
    modifies s.store
    ensures r1 == Ok(book) && r2 == Ok(true)
    ensures s.store.books == old(s.store.books)
  {
    r1 := s.CreateBook(book);
    r2 := s.DeleteBook(book.id);
  }

  /**
   * A new server that is given books with distinct ids accepts every
   * Create, and then lists exactly those books, in some order.
   */
  method CreateAllThenList(books: seq<Book>)
    returns (created: seq<Reply<Book>>, list: seq<Book>)
    requires forall i, j :: 0 <= i < j < |books| ==> books[i].id != books[j].id
    ensures |created| == |books|
    ensures forall i :: 0 <= i < |books| ==> created[i] == Ok(books[i])
    ensures multiset(list) == multiset(books)
  {
    var store := new BookStore();
    var s := new LibraryServer(store);
    created := [];
    var n := 0;
    while n < |books|
      invariant n <= |books|
      invariant |created| == n
      invariant forall i :: 0 <= i < n ==> created[i] == Ok(books[i])
      invariant store.books.Keys == set i | 0 <= i < n :: books[i].id
      invariant forall i :: 0 <= i < n ==> store.books[books[i].id] == books[i]
      invariant s.Valid()
    {
      var r := s.CreateBook(books[n]);
      created := created + [r];
      n := n + 1;
    }
    ghost var keys;
    list, keys := s.ListBooks();
    StoredExactly(store.books, books);
  }
}
