/** The lookup on the server's own tables: what a query for every author's
    books receives. */
module FixedData {
  import opened Library
  import opened BookLookup

  /** The keys a query for all authors hands to the lookup, in order. */
  function AuthorKeys(): (r: seq<string>)
    ensures r == ["Kate Chopin", "Paul Auster"]
  {
    Names(Authors)
  }

  /** Looking up both authors gives one Chopin title and three Auster titles,
      each list in store order. */
  lemma LookupOfAllAuthors()
    ensures |BatchGet(BooksDB, AuthorKeys())| == 2
    ensures Titles(BatchGet(BooksDB, AuthorKeys())[0]) == ["The Awakening"]
    ensures Titles(BatchGet(BooksDB, AuthorKeys())[1]) == ["City of Glass", "Book 1", "Book 2"]
  {
    var awakening := Book("The Awakening", "Kate Chopin");
    var glass := Book("City of Glass", "Paul Auster");
    var book1 := Book("Book 1", "Paul Auster");
    var book2 := Book("Book 2", "Paul Auster");
    assert BooksDB == [awakening, glass, book1, book2];
    assert BooksDB[1..] == [glass, book1, book2];
    assert BooksDB[2..] == [book1, book2];
    assert BooksDB[3..] == [book2];
    assert BooksDB[4..] == [];
    assert "Paul Auster" != "Kate Chopin";
    assert BooksBy(BooksDB[4..], "Kate Chopin") == [];
    assert BooksBy(BooksDB[3..], "Kate Chopin") == [];
    assert BooksBy(BooksDB[2..], "Kate Chopin") == [];
    assert BooksBy(BooksDB[1..], "Kate Chopin") == [];
    assert BooksBy(BooksDB, "Kate Chopin") == [awakening];
    assert BooksBy(BooksDB[4..], "Paul Auster") == [];
    assert BooksBy(BooksDB[3..], "Paul Auster") == [book2];
    assert BooksBy(BooksDB[2..], "Paul Auster") == [book1, book2];
    assert BooksBy(BooksDB[1..], "Paul Auster") == [glass, book1, book2];
    assert BooksBy(BooksDB, "Paul Auster") == [glass, book1, book2];
  }

  /** Every stored book is written by one of the listed authors. */
  lemma EveryBookHasListedAuthor()
    ensures forall k :: 0 <= k < |BooksDB| ==> BooksDB[k].author in AuthorKeys()
  {
  }

  /** The per-author lists for all authors together hold all four stored
      books, each exactly once. */
  lemma AuthorListsCoverStore()
    ensures multiset(Flatten(BatchGet(BooksDB, AuthorKeys()))) == multiset(BooksDB)
    ensures |Flatten(BatchGet(BooksDB, AuthorKeys()))| == 4
  {
    var keys := AuthorKeys();
    assert keys[0] != keys[1];
    EveryBookHasListedAuthor();
    CoverageIsRegrouping(BooksDB, keys);
  }
}
