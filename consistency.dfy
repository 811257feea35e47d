/** How each change the services make to the tables keeps the cross-table invariant
    `LoansConsistent` (at most one active borrowing per member and book, never more active
    borrowings than copies, no borrowing of a missing book) and never reactivates a returned
    borrowing. Every lemma is stated on the tables as values; the store's methods apply them. */
module Consistency {
  import opened Wrappers
  import opened Seqs
  import opened Records
  import opened Tables

  /** A book numbered past the counter has no active borrowing in a table without dangling
      references. */
  lemma FreshBookHasNoLoans(books: seq<Book>, loans: seq<Loan>, bookSeq: int, id: int)
    requires NoDangling(books, loans) && IdsIncreasing(books, BookKey, bookSeq) && id > bookSeq
    ensures ActiveLoansOfBook(loans, id) == []
  {
    IdsBelowCounter(books, BookKey, bookSeq);
    forall x | x in loans
      ensures x.bookId != id
    {
      var c := FindBook(books, x.bookId).value;
      assert c in books;
    }
    FilterNone(loans, ActiveOfBook(id));
  }

  /** Appending an active borrowing that passed `borrow_book!`'s checks. */
  lemma AddLoanKeepsConsistent(books: seq<Book>, loans: seq<Loan>, bookSeq: int, l: Loan)
    requires LoansConsistent(books, loans) && IdsIncreasing(books, BookKey, bookSeq)
    requires l.Active() && forall x :: x in loans ==> x.id != l.id
    requires FindBook(books, l.bookId).Some?
    requires |ActiveLoansOfBook(loans, l.bookId)| < FindBook(books, l.bookId).value.totalCopies
    requires forall x :: x in loans && x.Active() && x.userId == l.userId ==> x.bookId != l.bookId
    ensures LoansConsistent(books, loans + [l])
  {
    var after := loans + [l];
    forall x, y | x in after && y in after && x.Active() && y.Active() && x.userId == y.userId && x.bookId == y.bookId
      ensures x.id == y.id
    {
      if x in loans && y in loans {
        assert OneActivePerPair(loans);
      }
    }
    forall b | b in books
      ensures |ActiveLoansOfBook(after, b.id)| <= b.totalCopies
    {
      FilterAppend(loans, [l], ActiveOfBook(b.id));
      assert Filter([l], ActiveOfBook(b.id)) == if l.bookId == b.id then [l] else [];
      if l.bookId == b.id {
        SameIdSameRecord(books, BookKey, bookSeq, b, FindBook(books, l.bookId).value);
      }
    }
  }

  /** Setting `returned_at` on one borrowing (`return_book!`). */
  lemma ReturnKeepsConsistent(books: seq<Book>, loans: seq<Loan>, k: nat, day: int)
    requires LoansConsistent(books, loans) && k < |loans|
    ensures LoansConsistent(books, loans[k := loans[k].(returnedAt := Some(day))])
  {
    var v := loans[k].(returnedAt := Some(day));
    var after := loans[k := v];
    forall x | x in after
      ensures x in loans || (x == v && x.bookId == loans[k].bookId)
    {
      var i :| 0 <= i < |after| && after[i] == x;
      if i != k {
        assert loans[i] == x;
      }
    }
    forall b | b in books
      ensures |ActiveLoansOfBook(after, b.id)| <= b.totalCopies
    {
      FilterUpdateCount(loans, k, v, ActiveOfBook(b.id));
    }
  }

  /** `delete_book`'s cascade: the book and every borrowing of it go together. */
  lemma DeleteBookKeepsConsistent(books: seq<Book>, loans: seq<Loan>, book: Book)
    requires LoansConsistent(books, loans) && book in books
    ensures LoansConsistent(Filter(books, Other(book)), Filter(loans, NotOfBook(book.id)))
  {
    var books' := Filter(books, Other(book));
    var loans' := Filter(loans, NotOfBook(book.id));
    forall b | b in books'
      ensures |ActiveLoansOfBook(loans', b.id)| <= b.totalCopies
    {
      FilterOfFilterCount(loans, NotOfBook(book.id), ActiveOfBook(b.id));
    }
    forall x | x in loans'
      ensures FindBook(books', x.bookId).Some?
    {
      var c := FindBook(books, x.bookId).value;
      assert c in books';
    }
  }

  /** `update_book` on position `k`, when the patch leaves the number of copies at or above the
      book's active borrowings (in particular, when it does not touch `total_copies`). */
  lemma UpdateBookKeepsConsistent(books: seq<Book>, loans: seq<Loan>, k: nat, patch: BookFields)
    requires LoansConsistent(books, loans) && k < |books|
    requires patch.totalCopies.Some? ==> |ActiveLoansOfBook(loans, books[k].id)| <= patch.totalCopies.value
    ensures LoansConsistent(books[k := Patch(books[k], patch)], loans)
  {
    var after := books[k := Patch(books[k], patch)];
    forall b | b in after
      ensures |ActiveLoansOfBook(loans, b.id)| <= b.totalCopies
    {
      var i :| 0 <= i < |after| && after[i] == b;
      if i != k {
        assert books[i] == b;
      }
    }
    forall x | x in loans
      ensures FindBook(after, x.bookId).Some?
    {
      var i := BookIndex(books, x.bookId).value;
      assert after[i].id == x.bookId;
    }
  }

  /** `create_book` appends a book numbered past the counter with a non-negative number of
      copies. */
  lemma AddBookKeepsConsistent(books: seq<Book>, loans: seq<Loan>, bookSeq: int, b: Book)
    requires LoansConsistent(books, loans) && IdsIncreasing(books, BookKey, bookSeq)
    requires b.id > bookSeq && b.totalCopies >= 0
    ensures LoansConsistent(books + [b], loans)
  {
    FreshBookHasNoLoans(books, loans, bookSeq, b.id);
    forall x | x in loans
      ensures FindBook(books + [b], x.bookId).Some?
    {
      assert FindBook(books, x.bookId).value in books + [b];
    }
  }

  /** Returning a borrowing, appending a freshly numbered one or deleting a book's borrowings
      never makes a returned borrowing active again. */
  lemma ReturnNeverReactivates(loans: seq<Loan>, loanSeq: int, k: nat, day: int)
    requires IdsIncreasing(loans, LoanKey, loanSeq) && k < |loans|
    ensures NoReactivation(loans, loans[k := loans[k].(returnedAt := Some(day))])
  {
    var after := loans[k := loans[k].(returnedAt := Some(day))];
    forall x, y | x in loans && y in after && x.id == y.id && !x.Active()
      ensures !y.Active()
    {
      var i :| 0 <= i < |after| && after[i] == y;
      if i != k {
        SameIdSameRecord(loans, LoanKey, loanSeq, x, loans[i]);
      }
    }
  }

  lemma UnchangedNeverReactivates(loans: seq<Loan>, loanSeq: int)
    requires IdsIncreasing(loans, LoanKey, loanSeq)
    ensures NoReactivation(loans, loans)
  {
    forall x, y | x in loans && y in loans && x.id == y.id && !x.Active()
      ensures !y.Active()
    {
      SameIdSameRecord(loans, LoanKey, loanSeq, x, y);
    }
  }

  lemma AppendNeverReactivates(loans: seq<Loan>, loanSeq: int, l: Loan)
    requires IdsIncreasing(loans, LoanKey, loanSeq) && forall x :: x in loans ==> x.id != l.id
    ensures NoReactivation(loans, loans + [l])
  {
    forall x, y | x in loans && y in loans + [l] && x.id == y.id && !x.Active()
      ensures !y.Active()
    {
      SameIdSameRecord(loans, LoanKey, loanSeq, x, y);
    }
  }

  lemma DeleteNeverReactivates(loans: seq<Loan>, loanSeq: int, bookId: int)
    requires IdsIncreasing(loans, LoanKey, loanSeq)
    ensures NoReactivation(loans, Filter(loans, NotOfBook(bookId)))
  {
    forall x, y | x in loans && y in Filter(loans, NotOfBook(bookId)) && x.id == y.id && !x.Active()
      ensures !y.Active()
    {
      SameIdSameRecord(loans, LoanKey, loanSeq, x, y);
    }
  }

  /** Adding books numbered past the counter together with borrowings of only those books keeps
      the invariant when the added part is consistent on its own (the seeding step). */
  lemma AddFreshKeepsConsistent(books: seq<Book>, loans: seq<Loan>, bookSeq: int, newBooks: seq<Book>, newLoans: seq<Loan>)
    requires LoansConsistent(books, loans) && IdsIncreasing(books, BookKey, bookSeq)
    requires LoansConsistent(newBooks, newLoans)
    requires forall b :: b in newBooks ==> b.id > bookSeq
    requires forall l :: l in newLoans ==> l.bookId > bookSeq
    ensures LoansConsistent(books + newBooks, loans + newLoans)
  {
    OldLoansOfOldBooks(books, loans, bookSeq);
    AddFreshWithinCopies(books, loans, bookSeq, newBooks, newLoans);
    forall x | x in loans + newLoans
      ensures FindBook(books + newBooks, x.bookId).Some?
    {
      if x in loans {
        assert FindBook(books, x.bookId).value in books + newBooks;
      } else {
        assert FindBook(newBooks, x.bookId).value in books + newBooks;
      }
    }
  }

  /** Without dangling references, every borrowing is of a book numbered within the counter. */
  lemma OldLoansOfOldBooks(books: seq<Book>, loans: seq<Loan>, bookSeq: int)
    requires NoDangling(books, loans) && IdsIncreasing(books, BookKey, bookSeq)
    ensures forall x :: x in loans ==> x.bookId <= bookSeq
  {
    IdsBelowCounter(books, BookKey, bookSeq);
    forall x | x in loans
      ensures x.bookId <= bookSeq
    {
      var c := FindBook(books, x.bookId).value;
      assert c in books;
    }
  }

  lemma AddFreshWithinCopies(books: seq<Book>, loans: seq<Loan>, bookSeq: int, newBooks: seq<Book>, newLoans: seq<Loan>)
    requires WithinCopies(books, loans) && NoDangling(books, loans) && IdsIncreasing(books, BookKey, bookSeq)
    requires WithinCopies(newBooks, newLoans)
    requires forall x :: x in loans ==> x.bookId <= bookSeq
    requires forall b :: b in newBooks ==> b.id > bookSeq
    requires forall l :: l in newLoans ==> l.bookId > bookSeq
    ensures WithinCopies(books + newBooks, loans + newLoans)
  {
    IdsBelowCounter(books, BookKey, bookSeq);
    forall b | b in books + newBooks
      ensures |ActiveLoansOfBook(loans + newLoans, b.id)| <= b.totalCopies
    {
      FilterAppend(loans, newLoans, ActiveOfBook(b.id));
      if b in books {
        FilterNone(newLoans, ActiveOfBook(b.id));
      } else {
        FreshBookHasNoLoans(books, loans, bookSeq, b.id);
      }
    }
  }
}
