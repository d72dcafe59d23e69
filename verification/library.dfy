/** The in-memory tables of the getting-started server: the authors and the
    book store that the batched lookup reads. Books refer to their author by
    name, as the schema's foreign key does. */
module Library {

  /** An author, identified by name. */
  datatype Author = Author(name: string)

  /** A book record of the store: a title and the name of its author. */
  datatype Book = Book(title: string, author: string)

  /** The static `authors` array, in declaration order. */
  const Authors: seq<Author> := [Author("Kate Chopin"), Author("Paul Auster")]

  /** The static `booksDB` array; each author field is taken from `Authors`
      by position, as the source writes `authors[0].name` and `authors[1].name`. */
  const BooksDB: seq<Book> := [
    Book("The Awakening", Authors[0].name),
    Book("City of Glass", Authors[1].name),
    Book("Book 1", Authors[1].name),
    Book("Book 2", Authors[1].name)
  ]

  /** The names of a list of authors, in order: the keys a resolver hands the loader. */
  function Names(authors: seq<Author>): (r: seq<string>)
    ensures |r| == |authors|
    ensures forall i :: 0 <= i < |authors| ==> r[i] == authors[i].name
  {
    if |authors| == 0 then [] else [authors[0].name] + Names(authors[1..])
  }

  /** The titles of a list of books, in order: what the `Book.title` field exposes. */
  function Titles(books: seq<Book>): (r: seq<string>)
    ensures |r| == |books|
    ensures forall i :: 0 <= i < |books| ==> r[i] == books[i].title
  {
    if |books| == 0 then [] else [books[0].title] + Titles(books[1..])
  }
}
