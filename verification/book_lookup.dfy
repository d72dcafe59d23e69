/** The bulk lookup `batchGetBooksByAuthor`: for every requested author name,
    in request order, the books of the store written by that author, in store
    order. The logging and the artificial delay of the source do not affect the
    returned value and are not part of this model; the returned promise is
    modelled by the value it resolves to. */
module BookLookup {
  import opened Library
  import opened Subsequences

  /** The books of `db` whose author is exactly `name`, in the order of `db`:
      the `booksDB.filter(book => book.author === authorName)` of one slot. */
  function BooksBy(db: seq<Book>, name: string): (r: seq<Book>)
    ensures |r| <= |db|
    ensures forall k :: 0 <= k < |r| ==> r[k].author == name
  {
    if |db| == 0 then []
    else if db[0].author == name then [db[0]] + BooksBy(db[1..], name)
    else BooksBy(db[1..], name)
  }

  /** The specification of one slot, independent of how it is computed: an
      order-preserving selection from `db` that holds only books by `name` and
      holds each such book exactly as often as `db` does. */
  ghost predicate IsSelectionFor(s: seq<Book>, db: seq<Book>, name: string)
  {
    && IsSubsequence(s, db)
    && (forall k :: 0 <= k < |s| ==> s[k].author == name)
    && (forall b: Book :: b.author == name ==> multiset(s)[b] == multiset(db)[b])
  }

  /** The map of `BooksBy` over the requested names: the value
      `batchGetBooksByAuthor(authorNames)` resolves to. */
  function BatchGet(db: seq<Book>, names: seq<string>): (r: seq<seq<Book>>)
    ensures |r| == |names|
    ensures forall i :: 0 <= i < |names| ==> r[i] == BooksBy(db, names[i])
  {
    if |names| == 0 then [] else [BooksBy(db, names[0])] + BatchGet(db, names[1..])
  }

  /** Imperative form of the lookup, as the source writes it: an outer `map`
      over the requested names and, per name, a `filter` pass over the store. */
  method BatchGetBooksByAuthor(db: seq<Book>, authorNames: seq<string>) returns (books: seq<seq<Book>>)
    ensures |books| == |authorNames|
    ensures forall i :: 0 <= i < |authorNames| ==> IsSelectionFor(books[i], db, authorNames[i])
  {
    books := [];
    var i := 0;
    while i < |authorNames|
      invariant 0 <= i <= |authorNames|
      invariant |books| == i
      invariant forall j :: 0 <= j < i ==> books[j] == BooksBy(db, authorNames[j])
    {
      var matched := FilterByAuthor(db, authorNames[i]);
      books := books + [matched];
      i := i + 1;
    }
    forall j | 0 <= j < |authorNames|
      ensures IsSelectionFor(books[j], db, authorNames[j])
    {
      SelectionCharacterizesBooksBy(books[j], db, authorNames[j]);
    }
  }

  /** One `filter` pass over the store, keeping the books by `name`. */
  method FilterByAuthor(db: seq<Book>, name: string) returns (matched: seq<Book>)
    ensures matched == BooksBy(db, name)
  {
    matched := [];
    var k := 0;
    while k < |db|
      invariant 0 <= k <= |db|
      invariant matched + BooksBy(db[k..], name) == BooksBy(db, name)
    {
      assert db[k..][1..] == db[k + 1..];
      if db[k].author == name {
        matched := matched + [db[k]];
      }
      k := k + 1;
    }
    assert db[k..] == [];
  }

  /** The filtered store meets the slot specification. */
  lemma {:induction false} BooksByIsSelection(db: seq<Book>, name: string)
    ensures IsSelectionFor(BooksBy(db, name), db, name)
    decreases |db|
  {
    if |db| > 0 {
      var rest := BooksBy(db[1..], name);
      BooksByIsSelection(db[1..], name);
      assert db == [db[0]] + db[1..];
      if db[0].author == name {
        assert ([db[0]] + rest)[1..] == rest;
      } else {
        SubsequenceOfCons(rest, db[0], db[1..]);
      }
    }
  }

  /** A selection from `db` that is also a selection from the filtered store. */
  lemma {:induction false} SelectionWithinFilter(s: seq<Book>, db: seq<Book>, name: string)
    requires IsSubsequence(s, db)
    requires forall k :: 0 <= k < |s| ==> s[k].author == name
    ensures IsSubsequence(s, BooksBy(db, name))
    decreases |db|
  {
    if |s| > 0 {
      var rest := BooksBy(db[1..], name);
      if s[0] == db[0] && IsSubsequence(s[1..], db[1..]) {
        SelectionWithinFilter(s[1..], db[1..], name);
        assert BooksBy(db, name) == [db[0]] + rest;
        assert ([db[0]] + rest)[1..] == rest;
      } else {
        SelectionWithinFilter(s, db[1..], name);
        if db[0].author == name {
          SubsequenceOfCons(s, db[0], rest);
        }
      }
    }
  }

  /** `BooksBy` is exactly the selection the slot specification asks for:
      it meets the specification, and nothing else does. */
  lemma {:induction false} SelectionCharacterizesBooksBy(s: seq<Book>, db: seq<Book>, name: string)
    ensures IsSelectionFor(s, db, name) <==> s == BooksBy(db, name)
  {
    var f := BooksBy(db, name);
    BooksByIsSelection(db, name);
    if IsSelectionFor(s, db, name) {
      SelectionWithinFilter(s, db, name);
      assert multiset(s) == multiset(f) by {
        forall b ensures multiset(s)[b] == multiset(f)[b] {
          if b.author != name {
            assert b !in s;
          }
        }
      }
      assert |s| == |multiset(s)| == |multiset(f)| == |f|;
      SubsequenceOfSameLength(s, f);
    }
  }

  /** Every slot of the batch result meets the slot specification for its own
      key: the right books, each as often as in the store, in store order. */
  lemma BatchGetSlotsAreSelections(db: seq<Book>, names: seq<string>)
    ensures |BatchGet(db, names)| == |names|
    ensures forall i :: 0 <= i < |names| ==> IsSelectionFor(BatchGet(db, names)[i], db, names[i])
  {
    forall i | 0 <= i < |names|
      ensures IsSelectionFor(BatchGet(db, names)[i], db, names[i])
    {
      SelectionCharacterizesBooksBy(BatchGet(db, names)[i], db, names[i]);
    }
  }

  /** A key that matches no book keeps its position and gets an empty slot;
      a key that matches some book gets a non-empty one. */
  lemma UnmatchedKeyGivesEmptySlot(db: seq<Book>, names: seq<string>, i: int)
    requires 0 <= i < |names|
    ensures |BatchGet(db, names)| == |names|
    ensures BatchGet(db, names)[i] == [] <==> forall k :: 0 <= k < |db| ==> db[k].author != names[i]
  {
    var slot := BatchGet(db, names)[i];
    BooksByIsSelection(db, names[i]);
    if exists k :: 0 <= k < |db| && db[k].author == names[i] {
      var k :| 0 <= k < |db| && db[k].author == names[i];
      assert multiset(db)[db[k]] > 0;
      assert multiset(slot)[db[k]] > 0;
    }
  }

  /** A slot depends on its key alone, not on the other keys or on its
      position: equal keys, in the same request or in different ones, give
      equal slots. */
  lemma SlotDependsOnlyOnKey(db: seq<Book>, a: seq<string>, b: seq<string>, i: int, j: int)
    requires 0 <= i < |a| && 0 <= j < |b|
    requires a[i] == b[j]
    ensures BatchGet(db, a)[i] == BatchGet(db, b)[j]
  {
  }

  /** Looking up two lists of keys in one batch gives the two separate
      results, one after the other. */
  lemma BatchGetAppend(db: seq<Book>, a: seq<string>, b: seq<string>)
    ensures BatchGet(db, a + b) == BatchGet(db, a) + BatchGet(db, b)
  {
  }

  /** All the books of all the slots, one slot after the other. */
  function Flatten(slots: seq<seq<Book>>): seq<Book>
  {
    if |slots| == 0 then [] else slots[0] + Flatten(slots[1..])
  }

  /** How often one slot holds a book: as often as the store does when the
      slot's key is the book's author, and never otherwise. */
  lemma SlotCount(db: seq<Book>, name: string, b: Book)
    ensures multiset(BooksBy(db, name))[b] == if b.author == name then multiset(db)[b] else 0
  {
    BooksByIsSelection(db, name);
    if b.author != name {
      assert b !in BooksBy(db, name);
    }
  }

  /** The slots of a non-empty request: the first key's slot, then the rest. */
  lemma BatchGetCons(db: seq<Book>, names: seq<string>)
    requires |names| > 0
    ensures Flatten(BatchGet(db, names)) == BooksBy(db, names[0]) + Flatten(BatchGet(db, names[1..]))
  {
  }

  /** How often a key occurs in a non-empty request: at its head and in the rest. */
  lemma KeyCountCons(names: seq<string>, n: string)
    requires |names| > 0
    ensures multiset(names)[n] == (if names[0] == n then 1 else 0) + multiset(names[1..])[n]
  {
    assert names == [names[0]] + names[1..];
  }

  /** Across all slots, a book appears once for every requested key equal to
      its author, each time as often as the store holds it. */
  lemma {:induction false} FlattenedCount(db: seq<Book>, names: seq<string>, b: Book)
    ensures multiset(Flatten(BatchGet(db, names)))[b] == multiset(names)[b.author] * multiset(db)[b]
    decreases |names|
  {
    if |names| > 0 {
      var head := BooksBy(db, names[0]);
      var rest := Flatten(BatchGet(db, names[1..]));
      BatchGetCons(db, names);
      assert multiset(head + rest)[b] == multiset(head)[b] + multiset(rest)[b];
      FlattenedCount(db, names[1..], b);
      SlotCount(db, names[0], b);
      KeyCountCons(names, b.author);
      MultiplySuccessor(multiset(names[1..])[b.author], multiset(db)[b]);
    }
  }

  /** One more key for the same author adds one more copy of each of its books. */
  lemma MultiplySuccessor(k: int, c: int)
    ensures (k + 1) * c == c + k * c
  {
  }

  /** The requested keys are pairwise distinct. */
  ghost predicate Distinct(names: seq<string>)
  {
    forall i, j :: 0 <= i < j < |names| ==> names[i] != names[j]
  }

  /** A key occurs at most once in a list of distinct keys, and exactly once
      when it is present. */
  lemma {:induction false} DistinctOccursOnce(names: seq<string>, n: string)
    requires Distinct(names)
    ensures multiset(names)[n] == if n in names then 1 else 0
    decreases |names|
  {
    if |names| > 0 {
      assert names == [names[0]] + names[1..];
      assert Distinct(names[1..]) by {
        forall i, j | 0 <= i < j < |names[1..]| ensures names[1..][i] != names[1..][j] {
          assert names[1..][i] == names[i + 1] && names[1..][j] == names[j + 1];
        }
      }
      DistinctOccursOnce(names[1..], n);
      if names[0] == n {
        assert n !in names[1..] by {
          forall k | 0 <= k < |names[1..]| ensures names[1..][k] != n {
            assert names[1..][k] == names[k + 1];
          }
        }
      }
    }
  }

  /** When the keys are distinct and name the author of every stored book,
      the slots together hold every book of the store exactly once: the
      batch result is a regrouping of the store. */
  lemma CoverageIsRegrouping(db: seq<Book>, names: seq<string>)
    requires Distinct(names)
    requires forall k :: 0 <= k < |db| ==> db[k].author in names
    ensures multiset(Flatten(BatchGet(db, names))) == multiset(db)
    ensures |Flatten(BatchGet(db, names))| == |db|
  {
    var all := Flatten(BatchGet(db, names));
    forall b: Book
      ensures multiset(all)[b] == multiset(db)[b]
    {
      FlattenedCount(db, names, b);
      DistinctOccursOnce(names, b.author);
      if b in db {
        var k :| 0 <= k < |db| && db[k] == b;
      }
    }
    assert multiset(all) == multiset(db);
    assert |all| == |multiset(all)|;
  }
}
