/** The read-only dashboards: counts and overdue members for librarians, the member's own
    active borrowings for everyone else. Every view is a function of the tables and `today`,
    so building one changes nothing. */
module Dashboard {
  import opened Wrappers
  import opened Seqs
  import opened Records
  import opened Tables
  import opened Borrowing

  /** `member_summary`'s answer: a user's id and email. */
  datatype MemberSummary = MemberSummary(id: int, email: string)

  datatype LibrarianView = LibrarianView(
    totalBooks: nat, totalBorrowed: nat, dueToday: nat, overdueMembers: seq<MemberSummary>)

  /** One line of the member view: the book's title (absent when the book is gone), the due
      day and whether that day has passed. */
  datatype Borrowed = Borrowed(book: Option<string>, dueDate: int, overdue: bool)

  datatype View = Librarian(librarian: LibrarianView) | Member(borrowed: seq<Borrowed>)

  function OverdueOn(today: int): Loan -> bool { (l: Loan) => l.dueDate <= today && l.Active() }
  function DueOn(today: int): Loan -> bool { (l: Loan) => l.dueDate == today && l.Active() }

  /** `member_summary`: the user's id and email, when the user still exists. */
  function SummaryOf(users: seq<User>, userId: int): (r: Option<MemberSummary>)
    ensures r.None? <==> forall u :: u in users ==> u.id != userId
    ensures r.Some? ==> r.value.id == userId
                        && exists u :: u in users && u.id == userId && r.value == MemberSummary(u.id, u.email)
  {
    match FindUser(users, userId)
    case None => None
    case Some(u) => Some(MemberSummary(u.id, u.email))
  }

  /** `map { member_summary }.compact`: the summaries of the borrowers that can be found, one
      per borrowing, in order. */
  function Summaries(users: seq<User>, loans: seq<Loan>): (r: seq<MemberSummary>)
    ensures |r| <= |loans|
    ensures forall m :: m in r <==> exists l :: l in loans && SummaryOf(users, l.userId) == Some(m)
    decreases |loans|
  {
    if loans == [] then []
    else
      var rest := Summaries(users, loans[1..]);
      assert forall l :: l in loans <==> l == loans[0] || l in loans[1..];
      match SummaryOf(users, loans[0].userId)
      case None => rest
      case Some(m) => [m] + rest
  }

  /** The summary list of one borrowing: its borrower's summary, or nothing when the borrower
      cannot be found. */
  lemma SummariesSingle(users: seq<User>, l: Loan)
    ensures Summaries(users, [l]) == match SummaryOf(users, l.userId)
                                      case None => []
                                      case Some(m) => [m]
  {
    assert [l][1..] == [];
  }

  /** `map` then `compact` keeps the borrowings' order: the summaries of two runs of
      borrowings are the summaries of the first followed by those of the second. */
  lemma {:induction false} SummariesAppend(users: seq<User>, a: seq<Loan>, b: seq<Loan>)
    ensures Summaries(users, a + b) == Summaries(users, a) + Summaries(users, b)
    decreases |a|
  {
    if a == [] {
      assert a + b == b;
    } else {
      assert (a + b)[1..] == a[1..] + b;
      SummariesAppend(users, a[1..], b);
    }
  }

  /** `overdue_members`: each user holding an active borrowing due today or earlier, once. */
  function OverdueMembers(users: seq<User>, loans: seq<Loan>, today: int): (r: seq<MemberSummary>)
    ensures NoDups(r)
    ensures forall m :: m in r <==>
              exists l :: l in loans && l.Active() && l.dueDate <= today && SummaryOf(users, l.userId) == Some(m)
  {
    Dedup(Summaries(users, Filter(loans, OverdueOn(today))))
  }

  /** `librarian_view`. */
  function LibrarianViewOf(users: seq<User>, books: seq<Book>, loans: seq<Loan>, today: int): (v: LibrarianView)
    ensures v.totalBooks == |books|
  {
    LibrarianView(|books|, |Filter(loans, IsActive())|, |Filter(loans, DueOn(today))|,
                  OverdueMembers(users, loans, today))
  }

  /** `book&.dig(:title)` for the borrowed book. */
  function TitleOf(books: seq<Book>, bookId: int): (r: Option<string>)
    ensures r.Some? <==> exists b :: b in books && b.id == bookId
    ensures r.Some? ==> exists b :: b in books && b.id == bookId && r.value == b.title
  {
    match FindBook(books, bookId)
    case None => None
    case Some(b) => Some(b.title)
  }

  function Entry(books: seq<Book>, l: Loan, today: int): Borrowed {
    Borrowed(TitleOf(books, l.bookId), l.dueDate, l.dueDate < today)
  }

  /** `member_view`: one line per active borrowing of the user, in store order. */
  function MemberViewOf(books: seq<Book>, loans: seq<Loan>, userId: int, today: int): (r: seq<Borrowed>)
    ensures |r| == |ActiveLoansOfUser(loans, userId)|
    ensures forall i :: 0 <= i < |r| ==>
              var l := ActiveLoansOfUser(loans, userId)[i];
              && l.userId == userId && l.Active() && r[i].book == TitleOf(books, l.bookId)
              && r[i].dueDate == l.dueDate && (r[i].overdue <==> l.dueDate < today)
  {
    var active := ActiveLoansOfUser(loans, userId);
    assert forall i :: 0 <= i < |active| ==> active[i] in active;
    seq(|active|, i requires 0 <= i < |active| => Entry(books, active[i], today))
  }

  /** `for_user`: the librarian view for the librarian role, the member view for any other. */
  function ForUser(users: seq<User>, books: seq<Book>, loans: seq<Loan>, user: SafeUser, today: int): (r: View)
    ensures r.Librarian? <==> user.role == LIBRARIAN
    ensures r.Librarian? ==> r.librarian.totalBooks == |books|
    ensures r.Member? ==> |r.borrowed| == |ActiveLoansOfUser(loans, user.id)|
    ensures r.Librarian? ==> r.librarian == LibrarianViewOf(users, books, loans, today)
    ensures r.Member? ==> r.borrowed == MemberViewOf(books, loans, user.id, today)
  {
    if user.role == LIBRARIAN then Librarian(LibrarianViewOf(users, books, loans, today))
    else Member(MemberViewOf(books, loans, user.id, today))
  }

  // ---------------------------------------------------------------------------
  // Properties of the views

  /** Overdue members are listed in the order their first overdue borrowing appears. */
  lemma OverdueMembersInFirstOccurrenceOrder(users: seq<User>, loans: seq<Loan>, today: int)
    ensures var all := Summaries(users, Filter(loans, OverdueOn(today)));
            var r := OverdueMembers(users, loans, today);
            forall i, j :: 0 <= i < j < |r| ==> IndexOf(all, r[i]) < IndexOf(all, r[j])
  {
    DedupFirstOccurrenceOrder(Summaries(users, Filter(loans, OverdueOn(today))));
  }

  /** The counts are bounded by the active borrowings: loans due today and overdue members. */
  lemma CountsWithinBorrowed(users: seq<User>, books: seq<Book>, loans: seq<Loan>, today: int)
    ensures var v := LibrarianViewOf(users, books, loans, today);
            v.dueToday <= v.totalBorrowed && |v.overdueMembers| <= v.totalBorrowed
            && v.totalBorrowed <= |loans|
  {
    FilterStricterCount(loans, DueOn(today), IsActive());
    FilterStricterCount(loans, OverdueOn(today), IsActive());
  }

  /** A successful borrow adds one to `total_borrowed`. */
  lemma BorrowRaisesTotalBorrowed(users: seq<User>, books: seq<Book>, loans: seq<Loan>, l: Loan, today: int)
    requires l.Active()
    ensures LibrarianViewOf(users, books, loans + [l], today).totalBorrowed
            == LibrarianViewOf(users, books, loans, today).totalBorrowed + 1
  {
    FilterAppend(loans, [l], IsActive());
  }

  /** Returning an active borrowing takes one off `total_borrowed`; returning it again changes
      nothing. */
  lemma ReturnLowersTotalBorrowed(users: seq<User>, books: seq<Book>, loans: seq<Loan>, k: nat, day: int, today: int)
    requires k < |loans|
    ensures LibrarianViewOf(users, books, loans[k := Returned(loans[k], day)], today).totalBorrowed
            == LibrarianViewOf(users, books, loans, today).totalBorrowed - (if loans[k].Active() then 1 else 0)
  {
    FilterUpdateCount(loans, k, Returned(loans[k], day), IsActive());
  }

  /** A new borrowing is due `LOAN_DAYS` days out, so it leaves `due_today` as it was. */
  lemma BorrowKeepsDueToday(users: seq<User>, books: seq<Book>, loans: seq<Loan>,
                            id: int, userId: int, bookId: int, today: int)
    ensures LibrarianViewOf(users, books, loans + [NewLoan(id, userId, bookId, today)], today).dueToday
            == LibrarianViewOf(users, books, loans, today).dueToday
  {
    FilterAppend(loans, [NewLoan(id, userId, bookId, today)], DueOn(today));
    assert Filter([NewLoan(id, userId, bookId, today)], DueOn(today)) == [];
  }

  /** `due_today` counts active borrowings due today: returning one of them takes one off,
      returning any other borrowing changes nothing. */
  lemma ReturnLowersDueToday(users: seq<User>, books: seq<Book>, loans: seq<Loan>, k: nat, day: int, today: int)
    requires k < |loans|
    ensures LibrarianViewOf(users, books, loans[k := Returned(loans[k], day)], today).dueToday
            == LibrarianViewOf(users, books, loans, today).dueToday
               - (if loans[k].Active() && loans[k].dueDate == today then 1 else 0)
  {
    FilterUpdateCount(loans, k, Returned(loans[k], day), DueOn(today));
  }

  /** The member's view gains exactly one line for a new borrowing, not yet overdue. */
  lemma BorrowAddsMemberLine(books: seq<Book>, loans: seq<Loan>, id: int, userId: int, bookId: int, today: int)
    ensures MemberViewOf(books, loans + [NewLoan(id, userId, bookId, today)], userId, today)
            == MemberViewOf(books, loans, userId, today) + [Borrowed(TitleOf(books, bookId), today + LOAN_DAYS, false)]
  {
    var l := NewLoan(id, userId, bookId, today);
    FilterAppend(loans, [l], ActiveOfUser(userId));
    assert Filter([l], ActiveOfUser(userId)) == [l];
  }

  /** A borrowing due exactly today already puts its holder among the librarian's overdue
      members (`<=`), while the member's own line does not flag it (`<`). */
  lemma DueTodayBoundary(users: seq<User>, books: seq<Book>, loans: seq<Loan>, l: Loan, today: int)
    requires l in loans && l.Active() && l.dueDate == today
    requires exists u :: u in users && u.id == l.userId
    ensures SummaryOf(users, l.userId).Some?
    ensures SummaryOf(users, l.userId).value in OverdueMembers(users, loans, today)
    ensures exists i :: 0 <= i < |MemberViewOf(books, loans, l.userId, today)|
                        && MemberViewOf(books, loans, l.userId, today)[i].dueDate == today
                        && !MemberViewOf(books, loans, l.userId, today)[i].overdue
  {
    var active := ActiveLoansOfUser(loans, l.userId);
    assert l in active;
    var i :| 0 <= i < |active| && active[i] == l;
    assert MemberViewOf(books, loans, l.userId, today)[i].dueDate == today;
  }

  /** Once a member's only overdue borrowing is returned, the member is no longer listed:
      `overdue_members` counts active borrowings only. */
  lemma ReturnClearsOverdue(users: seq<User>, loans: seq<Loan>, k: nat, day: int, today: int)
    requires k < |loans|
    requires forall j :: 0 <= j < |loans| && j != k && loans[j].userId == loans[k].userId ==>
               !OverdueOn(today)(loans[j])
    ensures forall m :: m in OverdueMembers(users, loans[k := Returned(loans[k], day)], today) ==>
              m.id != loans[k].userId
  {
    var after := loans[k := Returned(loans[k], day)];
    forall m | m in OverdueMembers(users, after, today)
      ensures m.id != loans[k].userId
    {
      var l :| l in after && l.Active() && l.dueDate <= today && SummaryOf(users, l.userId) == Some(m);
      var j :| 0 <= j < |after| && after[j] == l;
      assert j != k;
    }
  }
}
