/**
 * The values shared by both variants of the library service: the book
 * record, the id type, the two kinds of client error, and what it means
 * for a sequence of books to be a listing of the in-memory table.
 */
module Catalog {

  /** Go's int32, the type of a book id and of the table's keys. */
  newtype int32 = x: int | -0x8000_0000 <= x < 0x8000_0000

  /** A catalogue record. Every write replaces the whole record. */
  datatype Book = Book(
    id: int32,
    title: string,
    author: string,
    isbn: string,
    publicationYear: int32,
    genre: string)

  /** The two ways an operation can be refused. */
  datatype Failure = AlreadyExists | NotFound {
    /** The text of the error the service returns. */
    function Message(): string {
      match this
      case AlreadyExists => "book with the given ID already exists"
      case NotFound => "book not found"
    }
  }

  /** The table's invariant: every stored book is stored under its own id. */
  ghost predicate KeysMatchIds(books: map<int32, Book>) {
    forall k :: k in books ==> books[k].id == k
  }

  ghost predicate Distinct<T>(s: seq<T>) {
    forall i, j :: 0 <= i < j < |s| ==> s[i] != s[j]
  }

  /**
   * `list` holds exactly one element per entry of `books`: the entry under
   * `keys[i]` is at position i, and `keys` visits every key once, in some order.
   */
  ghost predicate Enumerates(books: map<int32, Book>, keys: seq<int32>, list: seq<Book>) {
    && |keys| == |list| == |books|
    && Distinct(keys)
    && (forall i :: 0 <= i < |keys| ==> keys[i] in books && list[i] == books[keys[i]])
    && (forall k :: k in books ==> k in keys)
  }

  /** A sequence without repetitions has, as a multiset, each of its elements once. */
  lemma {:induction false} DistinctMultiset<T>(s: seq<T>)
    requires Distinct(s)
    ensures multiset(s) == multiset(set x | x in s)
  {
    if s != [] {
      var t, x := s[..|s| - 1], s[|s| - 1];
      assert s == t + [x];
      assert Distinct(t);
      DistinctMultiset(t);
      assert (set y | y in s) == (set y | y in t) + {x};
      assert x !in (set y | y in t);
    }
  }

  /**
   * Under the table's invariant, a listing is a permutation of the stored
   * books, and no id is listed twice.
   */
  lemma ListingIsPermutation(books: map<int32, Book>, keys: seq<int32>, list: seq<Book>)
    requires KeysMatchIds(books)
    requires Enumerates(books, keys, list)
    ensures forall i, j :: 0 <= i < j < |list| ==> list[i].id != list[j].id
    ensures multiset(list) == multiset(books.Values)
  {
    forall i | 0 <= i < |list|
      ensures list[i].id == keys[i]
    {
    }
    assert Distinct(list);
    DistinctMultiset(list);
    assert (set b | b in list) == books.Values by {
      forall b | b in books.Values
        ensures b in list
      {
        var k :| k in books && books[k] == b;
        var i :| 0 <= i < |keys| && keys[i] == k;
        assert list[i] == b;
      }
    }
  }

  /**
   * A table that holds exactly the given books, each under its own id, holds
   * them each once: as a multiset its values are those books.
   */
  lemma StoredExactly(books: map<int32, Book>, added: seq<Book>)
    requires forall i, j :: 0 <= i < j < |added| ==> added[i].id != added[j].id
    requires books.Keys == set i | 0 <= i < |added| :: added[i].id
    requires forall i :: 0 <= i < |added| ==> books[added[i].id] == added[i]
    ensures multiset(books.Values) == multiset(added)
  {
    assert Distinct(added);
    DistinctMultiset(added);
    assert books.Values == set b | b in added by {
      forall b | b in books.Values
        ensures b in added
      {
        var k :| k in books && books[k] == b;
        var i :| 0 <= i < |added| && added[i].id == k;
      }
    }
  }

  /**
   * Collects the table's books by taking its keys one at a time, in any
   * order, as a Go `range` over a map does; `keys` records the order taken.
   */
  method ListAll(books: map<int32, Book>) returns (list: seq<Book>, ghost keys: seq<int32>)
    ensures Enumerates(books, keys, list)
    ensures books == map[] ==> list == []
    ensures forall b :: b in list <==> b in books.Values
    ensures KeysMatchIds(books) ==> multiset(list) == multiset(books.Values)
  {
    list, keys := [], [];
    var rest := books.Keys;
    while rest != {}
      invariant rest <= books.Keys
      invariant |keys| == |list| && |keys| + |rest| == |books|
      invariant forall i :: 0 <= i < |keys| ==>
        keys[i] in books && keys[i] !in rest && list[i] == books[keys[i]]
      invariant Distinct(keys)
      invariant forall k :: k in books && k !in rest ==> k in keys
      decreases |rest|
    {
      var k :| k in rest;
      list, keys := list + [books[k]], keys + [k];
      rest := rest - {k};
    }
    forall b | b in books.Values
      ensures b in list
    {
      var k :| k in books && books[k] == b;
      var i :| 0 <= i < |keys| && keys[i] == k;
      assert list[i] == b;
    }
    if KeysMatchIds(books) {
      ListingIsPermutation(books, keys, list);
    }
  }
}
