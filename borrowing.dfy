/** The lending service: members borrow a copy for `LOAN_DAYS` days, librarians mark
    borrowings returned. */
module Borrowing {
  import opened Wrappers
  import opened Seqs
  import opened Records
  import opened Tables
  import opened Consistency
  import opened DataStore

  const UNAVAILABLE: string := "unavailable"
  const ALREADY_BORROWED: string := "already borrowed"
  const BORROWING_NOT_FOUND: string := "borrowing not found"

  function OfBook(bookId: int): Loan -> bool { (l: Loan) => l.bookId == bookId }

  /** The member already holds an active borrowing of the book (`any?` over their active
      borrowings). */
  predicate HoldsActive(loans: seq<Loan>, userId: int, bookId: int) {
    FirstIndex(ActiveLoansOfUser(loans, userId), OfBook(bookId)).Some?
  }

  /** The first of `borrow_book!`'s checks that fails, in the order it makes them: member role,
      book exists, a copy is free, no active borrowing of it yet; `None` when all pass. */
  function BorrowError(books: seq<Book>, loans: seq<Loan>, actor: Option<SafeUser>, bookId: int): (r: Option<string>)
    ensures r.None? <==>
              && Acts(actor, MEMBER) && FindBook(books, bookId).Some?
              && |ActiveLoansOfBook(loans, bookId)| < FindBook(books, bookId).value.totalCopies
              && forall l :: l in loans && l.Active() && l.userId == actor.value.id ==> l.bookId != bookId
    ensures r == Some(FORBIDDEN) <==> !Acts(actor, MEMBER)
    ensures r == Some(BOOK_NOT_FOUND) <==> Acts(actor, MEMBER) && FindBook(books, bookId).None?
    ensures r == Some(UNAVAILABLE) <==>
              Acts(actor, MEMBER) && FindBook(books, bookId).Some?
              && |ActiveLoansOfBook(loans, bookId)| >= FindBook(books, bookId).value.totalCopies
    ensures r == Some(ALREADY_BORROWED) <==>
              Acts(actor, MEMBER) && FindBook(books, bookId).Some?
              && |ActiveLoansOfBook(loans, bookId)| < FindBook(books, bookId).value.totalCopies
              && exists l :: l in loans && l.Active() && l.userId == actor.value.id && l.bookId == bookId
  {
    if !Acts(actor, MEMBER) then Some(FORBIDDEN)
    else match FindBook(books, bookId)
      case None => Some(BOOK_NOT_FOUND)
      case Some(book) =>
        if |ActiveLoansOfBook(loans, bookId)| >= book.totalCopies then Some(UNAVAILABLE)
        else if HoldsActive(loans, actor.value.id, bookId) then
          var i := FirstIndex(ActiveLoansOfUser(loans, actor.value.id), OfBook(bookId)).value;
          assert ActiveLoansOfUser(loans, actor.value.id)[i] in ActiveLoansOfUser(loans, actor.value.id);
          Some(ALREADY_BORROWED)
        else
          assert forall l :: l in loans && l.Active() && l.userId == actor.value.id ==>
                   l in ActiveLoansOfUser(loans, actor.value.id);
          None
  }

  /** Availability is checked before duplicates: a member who holds the only copy of a book
      and asks for it again is told it is unavailable. */
  lemma RebookingOnlyCopyIsUnavailable(books: seq<Book>, loans: seq<Loan>, actor: Option<SafeUser>, bookId: int)
    requires Acts(actor, MEMBER) && FindBook(books, bookId).Some?
    requires FindBook(books, bookId).value.totalCopies <= 1
    requires exists l :: l in loans && l.Active() && l.userId == actor.value.id && l.bookId == bookId
    ensures BorrowError(books, loans, actor, bookId) == Some(UNAVAILABLE)
  {
    var l :| l in loans && l.Active() && l.userId == actor.value.id && l.bookId == bookId;
    assert l in ActiveLoansOfBook(loans, bookId);
  }

  /** The borrowing `borrow_book!` creates once its checks pass. */
  function NewLoan(id: int, userId: int, bookId: int, today: int): (l: Loan)
    ensures l.Active() && l.dueDate - l.borrowedAt == LOAN_DAYS
    ensures l.id == id && l.userId == userId && l.bookId == bookId
    ensures l.borrowedAt == today && l.dueDate == today + LOAN_DAYS
  {
    Loan(id, userId, bookId, today, today + LOAN_DAYS, None)
  }

  /** A successful borrow keeps the cross-table invariant: it never pushes a book past its
      copies nor gives a member two active borrowings of one book. */
  lemma BorrowKeepsConsistent(books: seq<Book>, loans: seq<Loan>, bookSeq: int, loanSeq: nat,
                              actor: Option<SafeUser>, bookId: int, today: int)
    requires LoansConsistent(books, loans)
    requires IdsIncreasing(books, BookKey, bookSeq) && IdsIncreasing(loans, LoanKey, loanSeq)
    requires BorrowError(books, loans, actor, bookId).None?
    ensures LoansConsistent(books, loans + [NewLoan(loanSeq + 1, actor.value.id, bookId, today)])
    ensures NoReactivation(loans, loans + [NewLoan(loanSeq + 1, actor.value.id, bookId, today)])
  {
    var l := NewLoan(loanSeq + 1, actor.value.id, bookId, today);
    IdsBelowCounter(loans, LoanKey, loanSeq);
    AddLoanKeepsConsistent(books, loans, bookSeq, l);
    AppendNeverReactivates(loans, loanSeq, l);
  }

  /** A borrow that passed the checks leaves the book within its copies. */
  lemma BorrowWithinCopies(books: seq<Book>, loans: seq<Loan>, actor: Option<SafeUser>, bookId: int, l: Loan)
    requires BorrowError(books, loans, actor, bookId).None? && l.bookId == bookId
    ensures |ActiveLoansOfBook(loans + [l], bookId)| <= FindBook(books, bookId).value.totalCopies
  {
    FilterAppend(loans, [l], ActiveOfBook(bookId));
  }

  /** The borrowing `return_book!` leaves behind: only `returned_at` changes. */
  function Returned(l: Loan, today: int): (r: Loan)
    ensures !r.Active() && r.returnedAt == Some(today)
    ensures r.(returnedAt := l.returnedAt) == l
  {
    l.(returnedAt := Some(today))
  }

  class Borrowing {
    const store: Store

    constructor (store: Store)
      ensures this.store == store
    {
      this.store := store;
    }

    /** `borrow_book!`: a failed check leaves the borrowings untouched; otherwise one active
        borrowing due `LOAN_DAYS` days from `today` is appended, and the book's active
        borrowings stay within its copies. */
    method BorrowBook(actor: Option<SafeUser>, bookId: int, today: int) returns (r: Result<Loan>)
      requires store.Valid()
      modifies store`loans, store`loanSeq
      ensures store.Valid()
      ensures BorrowError(store.books, old(store.loans), actor, bookId).Some? ==>
                r == Err(BorrowError(store.books, old(store.loans), actor, bookId).value)
                && store.loans == old(store.loans) && store.loanSeq == old(store.loanSeq)
      ensures BorrowError(store.books, old(store.loans), actor, bookId).None? ==>
                store.loanSeq == old(store.loanSeq) + 1
                && r == Ok(NewLoan(store.loanSeq, actor.value.id, bookId, today))
                && store.loans == old(store.loans) + [r.value]
      ensures r.Ok? ==> |ActiveLoansOfBook(store.loans, bookId)| <= FindBook(store.books, bookId).value.totalCopies
    {
      var error := BorrowError(store.books, store.loans, actor, bookId);
      if error.Some? {
        return Err(error.value);
      }
      assert Acts(actor, MEMBER);
      var l := store.CreateLoan(actor.value.id, bookId, today, today + LOAN_DAYS);
      BorrowWithinCopies(store.books, old(store.loans), actor, bookId, l);
      assert l == NewLoan(store.loanSeq, actor.value.id, bookId, today);
      r := Ok(l);
    }

    /** `return_book!`: a librarian sets `returned_at` on the borrowing, even one already
        returned; nothing else changes. */
    method ReturnBook(actor: Option<SafeUser>, loanId: int, today: int) returns (r: Result<Loan>)
      requires store.Valid()
      modifies store`loans
      ensures store.Valid()
      ensures !Acts(actor, LIBRARIAN) ==> r == Err(FORBIDDEN) && store.loans == old(store.loans)
      ensures Acts(actor, LIBRARIAN) && LoanIndex(old(store.loans), loanId).None? ==>
                r == Err(BORROWING_NOT_FOUND) && store.loans == old(store.loans)
      ensures Acts(actor, LIBRARIAN) && LoanIndex(old(store.loans), loanId).Some? ==>
                var k := LoanIndex(old(store.loans), loanId).value;
                r == Ok(Returned(old(store.loans)[k], today)) && store.loans == old(store.loans)[k := r.value]
      ensures NoReactivation(old(store.loans), store.loans)
    {
      UnchangedNeverReactivates(store.loans, store.loanSeq);
      if !Acts(actor, LIBRARIAN) {
        return Err(FORBIDDEN);
      }
      var found := LoanIndex(store.loans, loanId);
      if found.None? {
        return Err(BORROWING_NOT_FOUND);
      }
      var k := found.value;
      var l := Returned(store.loans[k], today);
      UpdateKeepsIds(store.loans, LoanKey, store.loanSeq, k, l);
      ReturnNeverReactivates(store.loans, store.loanSeq, k, today);
      store.loans := store.loans[k := l];
      r := Ok(l);
    }

    /** `borrowings_for`: every borrowing for a librarian, otherwise the caller's own,
        returned ones included, in store order. */
    function BorrowingsFor(user: SafeUser): (r: seq<Loan>)
      reads store
      ensures user.role == LIBRARIAN ==> r == store.loans
      ensures user.role != LIBRARIAN ==> forall l :: l in r <==> l in store.loans && l.userId == user.id
      ensures IsSubseq(r, store.loans)
    {
      if user.role == LIBRARIAN then
        SubseqRefl(store.loans);
        store.loans
      else LoansOfUser(store.loans, user.id)
    }
  }
}
