/** The records the in-memory store keeps: users, books and borrowings, plus the
    password-free view of a user that every service hands back. */
module Records {
  import opened Wrappers

  const LIBRARIAN: string := "librarian"
  const MEMBER: string := "member"

  /** The roles registration accepts. */
  const ALLOWED_ROLES: seq<string> := [LIBRARIAN, MEMBER]

  /** The messages both the catalog and the lending service raise. */
  const FORBIDDEN: string := "forbidden"
  const BOOK_NOT_FOUND: string := "book not found"

  /** Days a new loan runs for. */
  const LOAN_DAYS: int := 14

  /** A stored user; the password is kept in plain text. */
  datatype User = User(id: int, email: string, password: string, role: string)

  /** A user with the `password` key removed: all callers ever see. */
  datatype SafeUser = SafeUser(id: int, email: string, role: string)

  function Sanitize(u: User): (r: SafeUser)
    ensures r.id == u.id && r.email == u.email && r.role == u.role
  {
    SafeUser(u.id, u.email, u.role)
  }

  /** The password never reaches the caller: users differing only in it look the same. */
  lemma SanitizeHidesPassword(u: User, password: string)
    ensures Sanitize(u.(password := password)) == Sanitize(u)
  {
  }

  /** The caller is signed in (`user` is not `nil`) and holds `role`. */
  predicate Acts(actor: Option<SafeUser>, role: string) {
    actor.Some? && actor.value.role == role
  }

  datatype Book = Book(id: int, title: string, author: string, genre: string, isbn: string, totalCopies: int)

  /** A borrowing record; dates are day numbers. It is active while `returnedAt` is absent. */
  datatype Loan = Loan(id: int, userId: int, bookId: int, borrowedAt: int, dueDate: int, returnedAt: Option<int>) {
    predicate Active() {
      returnedAt.None?
    }
  }

  /** The five book attributes a caller may supply or patch. */
  datatype Field = Title | Author | Genre | Isbn | TotalCopies

  /** The attribute hash given to `add_book!` and `update_book!`; `None` is a missing or `nil` key. */
  datatype BookFields = BookFields(
    title: Option<string>, author: Option<string>, genre: Option<string>, isbn: Option<string>,
    totalCopies: Option<int>)

  function UserKey(u: User): int { u.id }
  function BookKey(b: Book): int { b.id }
  function LoanKey(l: Loan): int { l.id }
}
