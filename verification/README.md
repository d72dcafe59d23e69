# Batched book lookup of the Apollo Server getting-started example

The getting-started server exposes a GraphQL schema with authors and their
books, backed by two static in-memory tables (`authors` and `booksDB`). The
only logic the repository itself writes is the bulk lookup
`batchGetBooksByAuthor`, the batch function handed to the request loader: it
takes a list of author names and returns a list of book lists, where position
*i* holds, in store order, every stored book whose `author` is exactly the
*i*-th name.

This project models that lookup as pure functions over immutable sequences
and proves the positional contract every batched resolver relies on: one slot
per key, each slot holding exactly its key's books in store order, an empty
slot (never a dropped one) for a key that matches nothing, and slots that
depend on their own key only.

- `library.dfy` (module `Library`): the `Author` and `Book` records, the
  static `Authors` and `BooksDB` tables, and the name/title projections.
- `subsequences.dfy` (module `Subsequences`): order-preserving subsequences,
  the reference notion for "keeps the store's order".
- `book_lookup.dfy` (module `BookLookup`): the per-key filter `BooksBy`, the
  batch map `BatchGet`, the loop form `BatchGetBooksByAuthor` as the source
  writes it, an independent slot specification `IsSelectionFor`, and the
  properties of the batch result.
- `fixed_data.dfy` (module `FixedData`): the outcome on the server's own
  tables.

## Model

| member | source | states |
|---|---|---|
| BookLookup.BooksBy | apollo-server/v2/getting-started/index.js:56-57 | the filtered list is never longer than the store and every book it keeps has `author` equal to the requested name |
| BookLookup.BooksByIsSelection | apollo-server/v2/getting-started/index.js:56-57 | the filtered list keeps the store's relative order, holds only books by the name, and holds every such book as often as the store does |
| BookLookup.SelectionCharacterizesBooksBy | apollo-server/v2/getting-started/index.js:56-57 | a list is an order-preserving selection of exactly the name's books if and only if it is the filter's result, so the slot specification determines the slot uniquely |
| BookLookup.SlotCount | apollo-server/v2/getting-started/index.js:56-57 | a slot holds a book as often as the store does when the book's author is the slot's key, and never otherwise |
| BookLookup.FilterByAuthor | apollo-server/v2/getting-started/index.js:56-57 | the single pass over the store with `===` comparison collects exactly the filtered list |
| BookLookup.BatchGet | apollo-server/v2/getting-started/index.js:55-58 | the result has one slot per requested name, and slot *i* is the filter of the store by name *i* |
| BookLookup.BatchGetBooksByAuthor | apollo-server/v2/getting-started/index.js:53-63 | the map-over-names loop returns one slot per name, each meeting the slot specification for its own name |
| BookLookup.BatchGetSlotsAreSelections | apollo-server/v2/getting-started/index.js:55-58 | every slot of the batch result is the order-preserving selection of exactly its own key's books |
| BookLookup.UnmatchedKeyGivesEmptySlot | apollo-server/v2/getting-started/index.js:55-58 | a key keeps its position, and its slot is empty if and only if no stored book has that author |
| BookLookup.SlotDependsOnlyOnKey | apollo-server/v2/getting-started/index.js:55-58 | two positions with equal keys, in one request or in two, receive equal slots (duplicate keys give identical entries) |
| BookLookup.BatchGetAppend | apollo-server/v2/getting-started/index.js:55-58 | looking up the concatenation of two key lists gives the concatenation of the two results |
| BookLookup.FlattenedCount | apollo-server/v2/getting-started/index.js:55-58 | across all slots a book occurs once per key equal to its author, times its multiplicity in the store |
| BookLookup.CoverageIsRegrouping | apollo-server/v2/getting-started/index.js:55-58 | for distinct keys naming every stored book's author, the slots together are a permutation of the store: each book exactly once |
| FixedData.LookupOfAllAuthors | apollo-server/v2/getting-started/index.js:32-58 | looking up both listed authors gives `["The Awakening"]` for Kate Chopin and `["City of Glass", "Book 1", "Book 2"]` for Paul Auster |
| FixedData.EveryBookHasListedAuthor | apollo-server/v2/getting-started/index.js:32-51 | every stored book's author is one of the listed authors |
| FixedData.AuthorListsCoverStore | apollo-server/v2/getting-started/index.js:32-51 | the per-author lists for the listed authors together hold all four stored books, each exactly once |

## Left out

- The `DataLoader` batching, key deduplication and per-key caching (index.js:2, 64, 76): it is a third-party package whose code is not part of this model; the lookup is modelled as the batch function it calls.
- The GraphQL schema text, `ApolloServer` construction and `server.listen` (index.js:1, 11-30, 85-90): framework wiring and network I/O.
- The resolver map (index.js:68-81): `Query.authors` returns the static table and `Author.books` only forwards to the loader and logs.
- The `console.log` calls and the `sleep(10)` delay (index.js:4-6, 54, 59, 61): side effects and event-loop timing with no influence on the returned value; the returned promise is modelled by the value it resolves to.
- That `booksDB` is not changed by the lookup is not stated as a separate member: the store is an immutable Dafny sequence passed by value, so no lookup can change it.
- Malformed input (a non-array `authorNames`, books lacking an `author` field): JavaScript's dynamic typing failures are excluded by the Dafny types.
