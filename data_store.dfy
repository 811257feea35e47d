/** The in-memory store: three ordered tables (users, books, borrowings), a token map,
    three id counters and a seeding flag. */
module DataStore {
  import opened Wrappers
  import opened Seqs
  import opened Records
  import opened Tables
  import opened Consistency

  // ---------------------------------------------------------------------------
  // The store

  class Store {
    var users: seq<User>
    var books: seq<Book>
    var loans: seq<Loan>
    var tokens: map<string, int>
    var userSeq: nat
    var bookSeq: nat
    var loanSeq: nat
    var seeded: bool

    ghost predicate Valid()
      reads this
    {
      && IdsIncreasing(users, UserKey, userSeq)
      && IdsIncreasing(books, BookKey, bookSeq)
      && IdsIncreasing(loans, LoanKey, loanSeq)
    }

    constructor ()
      ensures Valid()
      ensures users == [] && books == [] && loans == [] && tokens == map[]
      ensures userSeq == 0 && bookSeq == 0 && loanSeq == 0 && !seeded
    {
      users, books, loans, tokens := [], [], [], map[];
      userSeq, bookSeq, loanSeq := 0, 0, 0;
      seeded := false;
    }

    method CreateUser(email: string, password: string, role: string) returns (u: User)
      requires IdsIncreasing(users, UserKey, userSeq)
      modifies this`users, this`userSeq
      ensures IdsIncreasing(users, UserKey, userSeq)
      ensures userSeq == old(userSeq) + 1
      ensures u == User(userSeq, email, password, role) && users == old(users) + [u]
    {
      userSeq := userSeq + 1;
      u := User(userSeq, email, password, role);
      AppendKeepsIds(users, UserKey, userSeq - 1, u);
      users := users + [u];
    }

    /** `token_owner`. */
    function TokenOwner(token: string): (r: Option<int>)
      reads this
      ensures r.Some? <==> token in tokens
      ensures r.Some? ==> r.value == tokens[token]
    {
      if token in tokens then Some(tokens[token]) else None
    }

    /** `store_token`, with the random token supplied by the caller; an existing entry is overwritten. */
    method StoreToken(userId: int, token: string) returns (t: string)
      modifies this`tokens
      ensures t == token && tokens == old(tokens)[token := userId]
      ensures TokenOwner(t) == Some(userId)
      ensures forall other :: other != token ==> TokenOwner(other) == old(TokenOwner(other))
    {
      tokens := tokens[token := userId];
      t := token;
    }

    /** `delete_token`: answers the owner it removed, if any. */
    method DeleteToken(token: string) returns (owner: Option<int>)
      modifies this`tokens
      ensures owner == old(TokenOwner(token))
      ensures tokens == old(tokens) - {token} && TokenOwner(token) == None
      ensures owner.None? ==> tokens == old(tokens)
    {
      owner := TokenOwner(token);
      tokens := tokens - {token};
    }

    method CreateBook(title: string, author: string, genre: string, isbn: string, totalCopies: int)
      returns (b: Book)
      requires IdsIncreasing(books, BookKey, bookSeq)
      modifies this`books, this`bookSeq
      ensures IdsIncreasing(books, BookKey, bookSeq)
      ensures bookSeq == old(bookSeq) + 1
      ensures b == Book(bookSeq, title, author, genre, isbn, totalCopies) && books == old(books) + [b]
    {
      bookSeq := bookSeq + 1;
      b := Book(bookSeq, title, author, genre, isbn, totalCopies);
      AppendKeepsIds(books, BookKey, bookSeq - 1, b);
      books := books + [b];
    }

    /** `update_book`: patches the found book in place; `None` and no change for an unknown id. */
    method UpdateBook(id: int, patch: BookFields) returns (r: Option<Book>)
      requires Valid()
      modifies this`books
      ensures Valid()
      ensures BookIndex(old(books), id).None? ==> r.None? && books == old(books)
      ensures BookIndex(old(books), id).Some? ==>
                var k := BookIndex(old(books), id).value;
                r == Some(Patch(old(books)[k], patch)) && books == old(books)[k := r.value]
    {
      match BookIndex(books, id)
      case None =>
        r := None;
      case Some(k) =>
        var b := Patch(books[k], patch);
        UpdateKeepsIds(books, BookKey, bookSeq, k, b);
        books := books[k := b];
        r := Some(b);
    }

    /** `delete_book`: removes the book and, in cascade, every borrowing of it. */
    method DeleteBook(id: int) returns (r: Option<Book>)
      requires Valid()
      modifies this`books, this`loans
      ensures Valid()
      ensures r == FindBook(old(books), id)
      ensures r.None? ==> books == old(books) && loans == old(loans)
      ensures r.Some? ==> books == Filter(old(books), Other(r.value))
                          && loans == Filter(old(loans), NotOfBook(id))
      ensures r.Some? ==> FindBook(books, id).None? && forall l :: l in loans ==> l.bookId != id
    {
      r := FindBook(books, id);
      if r.Some? {
        var book := r.value;
        FilterKeepsIds(books, Other(book), BookKey, bookSeq);
        FilterKeepsIds(loans, NotOfBook(id), LoanKey, loanSeq);
        forall b | b in Filter(books, Other(book)) ensures b.id != id {
          if b.id == id {
            SameIdSameRecord(books, BookKey, bookSeq, b, book);
          }
        }
        books := Filter(books, Other(book));
        loans := Filter(loans, NotOfBook(id));
      }
    }

    method CreateLoan(userId: int, bookId: int, borrowedAt: int, dueDate: int) returns (l: Loan)
      requires IdsIncreasing(loans, LoanKey, loanSeq)
      modifies this`loans, this`loanSeq
      ensures IdsIncreasing(loans, LoanKey, loanSeq)
      ensures loanSeq == old(loanSeq) + 1
      ensures l == Loan(loanSeq, userId, bookId, borrowedAt, dueDate, None) && loans == old(loans) + [l]
      ensures l.Active()
    {
      loanSeq := loanSeq + 1;
      l := Loan(loanSeq, userId, bookId, borrowedAt, dueDate, None);
      AppendKeepsIds(loans, LoanKey, loanSeq - 1, l);
      loans := loans + [l];
    }

    /** `seed_sample_data!`: two users, three books and two loans (the second already overdue),
        added once; later calls change nothing. */
    method SeedSampleData(today: int)
      requires Valid()
      modifies this
      ensures Valid()
      ensures old(seeded) ==> unchanged(this)
      ensures !old(seeded) ==> seeded && tokens == old(tokens)
      ensures !old(seeded) ==> userSeq == old(userSeq) + 2 && users == old(users) + SampleUsers(old(userSeq))
      ensures !old(seeded) ==> bookSeq == old(bookSeq) + 3 && books == old(books) + SampleBooks(old(bookSeq))
      ensures !old(seeded) ==> loanSeq == old(loanSeq) + 2
                               && loans == old(loans) + SampleLoans(old(loanSeq), old(userSeq) + 2, old(bookSeq), today)
    {
      if seeded {
        return;
      }
      var member := SeedUsers();
      var bookBase := bookSeq;
      SeedBooks();
      SeedLoans(member, bookBase, today);
      seeded := true;
    }

    /** The sample librarian and member; answers the member's id. */
    method SeedUsers() returns (member: int)
      requires IdsIncreasing(users, UserKey, userSeq)
      modifies this`users, this`userSeq
      ensures IdsIncreasing(users, UserKey, userSeq)
      ensures member == old(userSeq) + 2 && userSeq == member
      ensures users == old(users) + SampleUsers(old(userSeq))
    {
      var librarian := CreateUser(SAMPLE_LIBRARIAN, SAMPLE_PASSWORD, LIBRARIAN);
      var m := CreateUser(SAMPLE_MEMBER, SAMPLE_PASSWORD, MEMBER);
      member := m.id;
    }

    /** The three sample books. */
    method SeedBooks()
      requires IdsIncreasing(books, BookKey, bookSeq)
      modifies this`books, this`bookSeq
      ensures IdsIncreasing(books, BookKey, bookSeq)
      ensures bookSeq == old(bookSeq) + 3
      ensures books == old(books) + SampleBooks(old(bookSeq))
    {
      var b1 := CreateBook(RUBY_WAY.0, RUBY_WAY.1, PROGRAMMING, RUBY_WAY.2, 3);
      var b2 := CreateBook(POOD.0, POOD.1, PROGRAMMING, POOD.2, 2);
      var b3 := CreateBook(PRAGMATIC.0, PRAGMATIC.1, PROGRAMMING, PRAGMATIC.2, 1);
    }

    /** The member's two sample loans of the books numbered after `bookBase`: one recent, one
        already overdue. */
    method SeedLoans(member: int, bookBase: nat, today: int)
      requires IdsIncreasing(loans, LoanKey, loanSeq)
      modifies this`loans, this`loanSeq
      ensures IdsIncreasing(loans, LoanKey, loanSeq)
      ensures loanSeq == old(loanSeq) + 2
      ensures loans == old(loans) + SampleLoans(old(loanSeq), member, bookBase, today)
    {
      var recent := CreateLoan(member, bookBase + 1, today - 1, today + 13);
      var overdue := CreateLoan(member, bookBase + 3, today - 20, today - 6);
    }
  }

  // The sample records `seed_sample_data!` adds.
  const SAMPLE_PASSWORD: string := "password"
  const SAMPLE_LIBRARIAN: string := "librarian@example.com"
  const SAMPLE_MEMBER: string := "member@example.com"
  const PROGRAMMING: string := "Programming"
  const RUBY_WAY: (string, string, string) := ("The Ruby Way", "Hal Fulton", "9780321714633")
  const POOD: (string, string, string) := ("Practical Object-Oriented Design", "Sandi Metz", "9780321721334")
  const PRAGMATIC: (string, string, string) := ("The Pragmatic Programmer", "Andrew Hunt", "9780135957059")

  /** The sample librarian and member, numbered after user id `u`. */
  function SampleUsers(u: nat): seq<User> {
    [User(u + 1, SAMPLE_LIBRARIAN, SAMPLE_PASSWORD, LIBRARIAN),
     User(u + 2, SAMPLE_MEMBER, SAMPLE_PASSWORD, MEMBER)]
  }

  /** The three sample books, numbered after book id `b`. */
  function SampleBooks(b: nat): seq<Book> {
    [Book(b + 1, RUBY_WAY.0, RUBY_WAY.1, PROGRAMMING, RUBY_WAY.2, 3),
     Book(b + 2, POOD.0, POOD.1, PROGRAMMING, POOD.2, 2),
     Book(b + 3, PRAGMATIC.0, PRAGMATIC.1, PROGRAMMING, PRAGMATIC.2, 1)]
  }

  /** The two sample loans of `member`: the first book, borrowed yesterday, and the third,
      borrowed twenty days ago and due six days ago. */
  function SampleLoans(l: nat, member: int, b: nat, today: int): (r: seq<Loan>)
    ensures forall x :: x in r ==> x.Active() && x.userId == member
    ensures |r| == 2 && r[1].dueDate < today
  {
    [Loan(l + 1, member, b + 1, today - 1, today + 13, None),
     Loan(l + 2, member, b + 3, today - 20, today - 6, None)]
  }

  /** Seeding keeps the cross-table invariant: the sample books are new and the sample loans
      borrow only them. */
  lemma SeedKeepsConsistent(books: seq<Book>, loans: seq<Loan>, bookSeq: nat, loanSeq: nat, member: int, today: int)
    requires LoansConsistent(books, loans) && IdsIncreasing(books, BookKey, bookSeq)
    ensures LoansConsistent(books + SampleBooks(bookSeq), loans + SampleLoans(loanSeq, member, bookSeq, today))
  {
    SamplesConsistent(loanSeq, member, bookSeq, today);
    AddFreshKeepsConsistent(books, loans, bookSeq, SampleBooks(bookSeq), SampleLoans(loanSeq, member, bookSeq, today));
  }

  /** The sample tables are consistent on their own: each sample book has at most one
      active sample borrowing and at least one copy. */
  lemma SamplesConsistent(loanSeq: nat, member: int, bookSeq: nat, today: int)
    ensures LoansConsistent(SampleBooks(bookSeq), SampleLoans(loanSeq, member, bookSeq, today))
  {
    var sb := SampleBooks(bookSeq);
    var sl := SampleLoans(loanSeq, member, bookSeq, today);
    SamplesWithinCopies(loanSeq, member, bookSeq, today);
    assert sb[0] in sb && sb[2] in sb;
  }

  lemma SamplesWithinCopies(loanSeq: nat, member: int, bookSeq: nat, today: int)
    ensures WithinCopies(SampleBooks(bookSeq), SampleLoans(loanSeq, member, bookSeq, today))
  {
    var sl := SampleLoans(loanSeq, member, bookSeq, today);
    forall b | b in SampleBooks(bookSeq)
      ensures |ActiveLoansOfBook(sl, b.id)| <= b.totalCopies
    {
      assert sl == [sl[0]] + [sl[1]];
      FilterAppend([sl[0]], [sl[1]], ActiveOfBook(b.id));
      assert Filter([sl[0]], ActiveOfBook(b.id)) == if b.id == bookSeq + 1 then [sl[0]] else [];
      assert Filter([sl[1]], ActiveOfBook(b.id)) == if b.id == bookSeq + 3 then [sl[1]] else [];
    }
  }
}
