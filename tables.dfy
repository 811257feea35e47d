/** The tables of the in-memory store as values: the id discipline every table keeps, the
    lookups (`find`) and filters (`select`) over them, and the cross-table properties the
    services maintain. */
module Tables {
  import opened Wrappers
  import opened Seqs
  import opened Records
  // ---------------------------------------------------------------------------
  // Id discipline of the tables

  /** Ids run strictly upwards along a table, are positive and never exceed the table's counter
      (stated link by link; `IdsIncreasingIff` gives the pairwise reading). */
  ghost predicate IdsIncreasing<T>(s: seq<T>, key: T -> int, counter: int)
    decreases |s|
  {
    s == [] ||
    (&& 0 < key(s[0])
     && (if |s| == 1 then key(s[0]) <= counter else key(s[0]) < key(s[1]))
     && IdsIncreasing(s[1..], key, counter))
  }

  ghost predicate IdsPairwise<T>(s: seq<T>, key: T -> int, counter: int) {
    && (forall i, j :: 0 <= i < j < |s| ==> key(s[i]) < key(s[j]))
    && (forall i :: 0 <= i < |s| ==> 0 < key(s[i]) <= counter)
  }

  lemma {:induction false} IdsIncreasingIff<T>(s: seq<T>, key: T -> int, counter: int)
    ensures IdsIncreasing(s, key, counter) <==> IdsPairwise(s, key, counter)
    decreases |s|
  {
    if |s| > 1 {
      IdsIncreasingIff(s[1..], key, counter);
      if IdsIncreasing(s, key, counter) {
        forall i, j | 0 <= i < j < |s| ensures key(s[i]) < key(s[j]) {
          if i > 0 {
            assert key(s[1..][i - 1]) < key(s[1..][j - 1]);
          } else if j > 1 {
            assert key(s[1..][0]) < key(s[1..][j - 1]);
          }
        }
        forall i | 0 <= i < |s| ensures 0 < key(s[i]) <= counter {
          if i > 0 {
            assert s[i] == s[1..][i - 1];
          } else {
            assert s[1..][0] == s[1];
          }
        }
      }
      if IdsPairwise(s, key, counter) {
        assert IdsPairwise(s[1..], key, counter) by {
          forall i, j | 0 <= i < j < |s[1..]| ensures key(s[1..][i]) < key(s[1..][j]) {
            assert s[1..][i] == s[i + 1] && s[1..][j] == s[j + 1];
          }
          forall i | 0 <= i < |s[1..]| ensures 0 < key(s[1..][i]) <= counter {
            assert s[1..][i] == s[i + 1];
          }
        }
      }
    }
  }

  /** Appending a record stamped with the bumped counter keeps the discipline. */
  lemma AppendKeepsIds<T>(s: seq<T>, key: T -> int, counter: nat, x: T)
    requires IdsIncreasing(s, key, counter) && key(x) == counter + 1
    ensures IdsIncreasing(s + [x], key, counter + 1)
  {
    IdsIncreasingIff(s, key, counter);
    var t := s + [x];
    assert forall i :: 0 <= i < |s| ==> t[i] == s[i];
    IdsIncreasingIff(t, key, counter + 1);
  }

  /** Deleting records keeps the discipline. */
  lemma {:induction false} FilterKeepsIds<T(!new)>(s: seq<T>, p: T -> bool, key: T -> int, counter: int)
    requires IdsIncreasing(s, key, counter)
    ensures IdsIncreasing(Filter(s, p), key, counter)
  {
    IdsIncreasingIff(s, key, counter);
    var r := Filter(s, p);
    forall i, j | 0 <= i < j < |r| ensures key(r[i]) < key(r[j]) {
      SubseqOrder(r, s, key, i, j);
    }
    forall i | 0 <= i < |r| ensures 0 < key(r[i]) <= counter {
      assert r[i] in s;
    }
    IdsIncreasingIff(r, key, counter);
  }

  /** Every id in a table is at most its counter, so the next counter value is unused. */
  lemma IdsBelowCounter<T>(s: seq<T>, key: T -> int, counter: int)
    requires IdsIncreasing(s, key, counter)
    ensures forall x :: x in s ==> 0 < key(x) <= counter
  {
    IdsIncreasingIff(s, key, counter);
  }

  /** Overwriting a record without changing its id keeps the discipline. */
  lemma UpdateKeepsIds<T>(s: seq<T>, key: T -> int, counter: int, k: nat, x: T)
    requires IdsIncreasing(s, key, counter) && k < |s| && key(x) == key(s[k])
    ensures IdsIncreasing(s[k := x], key, counter)
  {
    IdsIncreasingIff(s, key, counter);
    IdsIncreasingIff(s[k := x], key, counter);
  }

  /** Two records of one table with the same id are one record. */
  lemma SameIdSameRecord<T>(s: seq<T>, key: T -> int, counter: int, x: T, y: T)
    requires IdsIncreasing(s, key, counter) && x in s && y in s && key(x) == key(y)
    ensures x == y
  {
    IdsIncreasingIff(s, key, counter);
  }

  // ---------------------------------------------------------------------------
  // Record tests used by the lookups (the blocks passed to `find` and `select`)

  function EmailIs(email: string): User -> bool { (u: User) => u.email == email }
  function UserIdIs(id: int): User -> bool { (u: User) => u.id == id }
  function BookIdIs(id: int): Book -> bool { (b: Book) => b.id == id }
  function LoanIdIs(id: int): Loan -> bool { (l: Loan) => l.id == id }
  function OfUser(userId: int): Loan -> bool { (l: Loan) => l.userId == userId }
  function IsActive(): Loan -> bool { (l: Loan) => l.Active() }
  function ActiveOfUser(userId: int): Loan -> bool { (l: Loan) => l.userId == userId && l.Active() }
  function ActiveOfBook(bookId: int): Loan -> bool { (l: Loan) => l.bookId == bookId && l.Active() }
  function NotOfBook(bookId: int): Loan -> bool { (l: Loan) => l.bookId != bookId }
  function Other(book: Book): Book -> bool { (b: Book) => b != book }

  // ---------------------------------------------------------------------------
  // Lookups

  /** `find_user_by_email`: the first user whose email is exactly `email`. */
  function FindUserByEmail(users: seq<User>, email: string): (r: Option<User>)
    ensures r.Some? ==> exists i :: 0 <= i < |users| && users[i] == r.value && r.value.email == email
                                    && forall j :: 0 <= j < i ==> users[j].email != email
    ensures r.None? <==> forall u :: u in users ==> u.email != email
  {
    match FirstIndex(users, EmailIs(email))
    case None => None
    case Some(i) => Some(users[i])
  }

  /** `find_user`: the first user with id `id`. */
  function FindUser(users: seq<User>, id: int): (r: Option<User>)
    ensures r.Some? ==> r.value in users && r.value.id == id
    ensures r.None? <==> forall u :: u in users ==> u.id != id
  {
    match FirstIndex(users, UserIdIs(id))
    case None => None
    case Some(i) => Some(users[i])
  }

  /** Position of the book `find_book` finds. */
  function BookIndex(books: seq<Book>, id: int): (r: Option<nat>)
    ensures r.Some? ==> r.value < |books| && books[r.value].id == id
                        && forall j :: 0 <= j < r.value ==> books[j].id != id
    ensures r.None? <==> forall j :: 0 <= j < |books| ==> books[j].id != id
  {
    FirstIndex(books, BookIdIs(id))
  }

  /** `find_book`: the first book with id `id`. */
  function FindBook(books: seq<Book>, id: int): (r: Option<Book>)
    ensures r.Some? ==> r.value in books && r.value.id == id
    ensures r.None? <==> forall b :: b in books ==> b.id != id
  {
    match BookIndex(books, id)
    case None => None
    case Some(i) => Some(books[i])
  }

  /** Position of the borrowing `find_borrowing` finds. */
  function LoanIndex(loans: seq<Loan>, id: int): (r: Option<nat>)
    ensures r.Some? ==> r.value < |loans| && loans[r.value].id == id
                        && forall j :: 0 <= j < r.value ==> loans[j].id != id
    ensures r.None? <==> forall j :: 0 <= j < |loans| ==> loans[j].id != id
  {
    FirstIndex(loans, LoanIdIs(id))
  }

  /** `find_borrowing`: the first borrowing with id `id`. */
  function FindLoan(loans: seq<Loan>, id: int): (r: Option<Loan>)
    ensures r.Some? ==> r.value in loans && r.value.id == id
    ensures r.None? <==> forall l :: l in loans ==> l.id != id
  {
    match LoanIndex(loans, id)
    case None => None
    case Some(i) => Some(loans[i])
  }

  // ---------------------------------------------------------------------------
  // Filters (all return subsequences in store order)

  /** `borrowings_for_user`: every borrowing of the user, returned ones included. */
  function LoansOfUser(loans: seq<Loan>, userId: int): (r: seq<Loan>)
    ensures forall l :: l in r <==> l in loans && l.userId == userId
    ensures IsSubseq(r, loans)
  {
    Filter(loans, OfUser(userId))
  }

  /** `active_borrowings_for_user`: the user's borrowings with the returned ones rejected. */
  function ActiveLoansOfUser(loans: seq<Loan>, userId: int): (r: seq<Loan>)
    ensures r == Filter(loans, ActiveOfUser(userId))
    ensures forall l :: l in r <==> l in loans && l.userId == userId && l.Active()
    ensures IsSubseq(r, loans)
  {
    FilterOfFilter(loans, OfUser(userId), IsActive(), ActiveOfUser(userId));
    Filter(LoansOfUser(loans, userId), IsActive())
  }

  /** `active_borrowings_for_book`: the book's borrowings that are not returned. */
  function ActiveLoansOfBook(loans: seq<Loan>, bookId: int): (r: seq<Loan>)
    ensures forall l :: l in r <==> l in loans && l.bookId == bookId && l.Active()
    ensures IsSubseq(r, loans)
  {
    Filter(loans, ActiveOfBook(bookId))
  }

  // ---------------------------------------------------------------------------
  // Cross-table properties the borrowing and catalog services maintain

  /** Two distinct active borrowings never share a (user, book) pair. */
  ghost predicate OneActivePerPair(loans: seq<Loan>) {
    forall x, y ::
      (x in loans && y in loans && x.Active() && y.Active() && x.userId == y.userId && x.bookId == y.bookId)
      ==> x.id == y.id
  }

  /** No book has more active borrowings than copies. */
  ghost predicate WithinCopies(books: seq<Book>, loans: seq<Loan>) {
    forall b :: b in books ==> |ActiveLoansOfBook(loans, b.id)| <= b.totalCopies
  }

  /** Every borrowing refers to a book in the catalog. */
  ghost predicate NoDangling(books: seq<Book>, loans: seq<Loan>) {
    forall l :: l in loans ==> FindBook(books, l.bookId).Some?
  }

  ghost predicate LoansConsistent(books: seq<Book>, loans: seq<Loan>) {
    OneActivePerPair(loans) && WithinCopies(books, loans) && NoDangling(books, loans)
  }

  /** A borrowing that was returned is still returned afterwards, if it still exists. */
  ghost predicate NoReactivation(before: seq<Loan>, after: seq<Loan>) {
    forall x, y :: x in before && y in after && x.id == y.id && !x.Active() ==> !y.Active()
  }

  /** `update_book`'s patch: every attribute given a value overwrites, absent ones are kept. */
  function Patch(b: Book, p: BookFields): (r: Book)
    ensures r.id == b.id
    ensures p == BookFields(None, None, None, None, None) ==> r == b
    ensures r.title == (if p.title.Some? then p.title.value else b.title)
    ensures r.author == (if p.author.Some? then p.author.value else b.author)
    ensures r.genre == (if p.genre.Some? then p.genre.value else b.genre)
    ensures r.isbn == (if p.isbn.Some? then p.isbn.value else b.isbn)
    ensures r.totalCopies == (if p.totalCopies.Some? then p.totalCopies.value else b.totalCopies)
    ensures p.title == Some("") ==> r.title == ""
  {
    Book(b.id, p.title.GetOr(b.title), p.author.GetOr(b.author), p.genre.GetOr(b.genre),
         p.isbn.GetOr(b.isbn), p.totalCopies.GetOr(b.totalCopies))
  }
}
