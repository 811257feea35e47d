# Library management core, modelled in Dafny

This project models the Ruby core of a small library management system (`backend/lib/library/`). It also proves properties of the model.

The system keeps everything in one in-memory store:
- users, books and borrowings, each an ordered list of records numbered by its own counter;
- a map from session tokens to user ids.

Four services sit on that store. The registry builds them:
- **Authentication**: register, login, logout, current user.
- **BookManagement**: librarian-only add, update and delete with cascade, plus the case-insensitive AND search.
- **Borrowing**: members borrow one copy for 14 days; librarians mark borrowings returned.
- **Dashboard**: counts and overdue members for librarians; a member's own active borrowings for members.

Layout, one Dafny module per file:

| file | module | what it holds |
|---|---|---|
| `wrappers.dfy` | `Wrappers` | `Option` and `Result`. `Err` carries the message the Ruby code raises. |
| `seqs.dfy` | `Seqs` | `Filter` (Ruby's `select`/`reject`), `FirstIndex` (`find`), `Dedup` (`uniq`), the subsequence order, and their lemmas. |
| `text.dfy` | `Text` | `strip`, `downcase` (ASCII), `include?`, `join`, `Integer#to_s`, and the "blank" test `to_s.strip.empty?`. |
| `records.dfy` | `Records` | The user, book and borrowing records, the password-free user view, and the roles. |
| `tables.dfy` | `Tables` | The tables as values: the id discipline, the lookups and filters of the store, and the cross-table invariant. |
| `consistency.dfy` | `Consistency` | How each change to the tables keeps the cross-table invariant and never reactivates a returned borrowing. |
| `data_store.dfy` | `DataStore` | The `Store` class, whose fields its methods update in place, and the sample data. |
| `authentication.dfy`, `book_management.dfy`, `borrowing.dfy` | one module each | Service classes holding the shared `Store`. Their methods change it through field-level `modifies` clauses. |
| `dashboard.dfy` | `Dashboard` | The read-only views, as functions of the tables and `today`. |
| `registry.dfy` | `Registry` | `truthy?` and `reset!`. |

The main invariants:

- **Id discipline.** In every table the ids are positive, strictly increasing and at most the table's counter. Counters only grow, so an id is never handed out twice, even after a deletion.
- **Cross-table invariant.** `Tables.LoansConsistent` requires all three of:
  - no book has more active borrowings than copies;
  - a member holds at most one active borrowing of a book;
  - no borrowing refers to a missing book.

  Each change that passes the services' checks preserves it:
  - borrow (`BorrowKeepsConsistent`);
  - return (`ReturnKeepsConsistent`);
  - delete (`DeleteBookKeepsConsistent`);
  - add with non-negative copies (`AddBookKeepsConsistent`);
  - seeding (`SeedKeepsConsistent`);
  - an update that keeps the copies at or above the book's active borrowings (`UpdateBookKeepsConsistent`).

Dates are day numbers. Services receive `today` as a parameter.

Where the repository's request specs and the library code disagree, the model follows the code:
- `backend/spec/app_spec.rb:60-75` expects `already borrowed` when a member re-borrows a book that has a single copy. The code checks availability first and answers `unavailable`; see `Borrowing.RebookingOnlyCopyIsUnavailable`.
- `backend/spec/app_spec.rb:95-105` expects a returned borrowing to keep its member among the overdue members. The code keeps only active borrowings; see `Dashboard.ReturnClearsOverdue`.
- The overdue list uses `<=` (a borrowing due today already counts), while the member's own overdue flag uses `<`; see `Dashboard.DueTodayBoundary`.

## Model

| member | source | states |
|---|---|---|
| `Records.Sanitize` | backend/lib/library/authentication.rb:43-47 | The user's id, email and role, without the password. |
| `Records.SanitizeHidesPassword` | backend/lib/library/authentication.rb:43-47 | Two users differing only in the password look the same once sanitized. |
| `Tables.FindUserByEmail` | backend/lib/library/data_store.rb:29-31 | The first user whose email is exactly the given one. None exactly when no user has it. |
| `Tables.FindUser` | backend/lib/library/data_store.rb:33-35 | A user of the table with that id. None exactly when no user has it. |
| `Tables.FindBook` | backend/lib/library/data_store.rb:65-67 | A book of the catalog with that id. None exactly when no book has it. |
| `Tables.BookIndex` | backend/lib/library/data_store.rb:70 | The position of the first book with that id. None exactly when no position holds it. |
| `Tables.FindLoan` | backend/lib/library/data_store.rb:104-106 | A borrowing with that id. None exactly when no borrowing has it. |
| `Tables.LoanIndex` | backend/lib/library/borrowing.rb:32 | The position of the first borrowing with that id. None exactly when no position holds it. |
| `Tables.LoansOfUser` | backend/lib/library/data_store.rb:108-110 | Exactly the user's borrowings, returned ones included, as a subsequence in store order. |
| `Tables.ActiveLoansOfUser` | backend/lib/library/data_store.rb:112-114 | Exactly the user's borrowings without a return date, in store order. |
| `Tables.ActiveLoansOfBook` | backend/lib/library/data_store.rb:116-118 | Exactly the book's borrowings without a return date, in store order. |
| `Tables.Patch` | backend/lib/library/data_store.rb:73 | Patch semantics, field by field. Each of title, author, genre, isbn and total_copies takes the given value when one is given, including an empty title, and keeps the old value otherwise. The id never changes. An empty patch changes nothing. |
| `Tables.IdsBelowCounter` | backend/lib/library/data_store.rb:22-27 | Every id in a table is positive and at most its counter, so the next counter value is unused. |
| `Tables.SameIdSameRecord` | backend/lib/library/data_store.rb:90-102 | Ids are unique within a table: two records with one id are the same record. |
| `Tables.AppendKeepsIds` | backend/lib/library/data_store.rb:51-63 | Appending a record stamped with the bumped counter keeps ids increasing and within the counter. |
| `Tables.FilterKeepsIds` | backend/lib/library/data_store.rb:77-84 | Deleting records keeps the id discipline. The counter does not go back, so ids are not reused. |
| `Tables.UpdateKeepsIds` | backend/lib/library/data_store.rb:69-75 | Overwriting a record without changing its id keeps the id discipline. |
| `DataStore.Store.constructor` | backend/lib/library/data_store.rb:11-20 | The store starts with empty tables, no tokens, zero counters and not seeded. |
| `DataStore.Store.CreateUser` | backend/lib/library/data_store.rb:22-27 | Bumps the user counter and appends the user numbered with it. Nothing else changes, and the id discipline holds. |
| `DataStore.Store.StoreToken` | backend/lib/library/data_store.rb:37-41 | Maps the token to the user, overwriting any earlier owner. Every other token keeps its owner. |
| `DataStore.Store.DeleteToken` | backend/lib/library/data_store.rb:47-49 | Removes the token and answers its former owner. An unknown token changes nothing. |
| `DataStore.Store.CreateBook` | backend/lib/library/data_store.rb:51-63 | Bumps the book counter and appends the book numbered with it. |
| `DataStore.Store.UpdateBook` | backend/lib/library/data_store.rb:69-75 | Patches the first book with the id in place and answers it. An unknown id answers None and changes nothing. |
| `DataStore.Store.DeleteBook` | backend/lib/library/data_store.rb:77-84 | Answers the book it finds and removes it together with every borrowing of it. Afterwards no book and no borrowing refers to the id. An unknown id changes nothing. |
| `DataStore.Store.CreateLoan` | backend/lib/library/data_store.rb:90-102 | Bumps the borrowing counter and appends an active borrowing numbered with it. |
| `DataStore.Store.SeedSampleData` | backend/lib/library/data_store.rb:125-142 | On the first call, appends the two sample users, three books and two borrowings with consecutive ids and sets the seeded flag. Later calls change nothing. |
| `DataStore.SampleLoans` | backend/lib/library/data_store.rb:137-139 | Both sample borrowings are active and belong to the member. The second is already overdue. |
| `DataStore.SeedKeepsConsistent` | backend/lib/library/data_store.rb:125-142 | Seeding keeps the cross-table invariant. |
| `DataStore.SamplesConsistent` | backend/lib/library/data_store.rb:130-139 | The sample tables alone satisfy the cross-table invariant. |
| `Consistency.FreshBookHasNoLoans` | backend/lib/library/data_store.rb:52-54 | A book numbered past the counter has no active borrowing. |
| `Consistency.AddLoanKeepsConsistent` | backend/lib/library/borrowing.rb:18-26 | A borrowing that passed the availability and duplicate checks keeps the invariant: within copies, one active per member and book, no dangling borrowing. |
| `Consistency.ReturnKeepsConsistent` | backend/lib/library/borrowing.rb:35 | Setting a return date keeps the cross-table invariant. |
| `Consistency.DeleteBookKeepsConsistent` | backend/lib/library/data_store.rb:77-84 | The cascade delete leaves no dangling borrowing and keeps the invariant. |
| `Consistency.UpdateBookKeepsConsistent` | backend/lib/library/data_store.rb:69-75 | An update keeps the invariant when it leaves the copies at or above the book's active borrowings. |
| `Consistency.AddBookKeepsConsistent` | backend/lib/library/data_store.rb:51-63 | Adding a freshly numbered book with non-negative copies keeps the invariant. |
| `Consistency.AddFreshKeepsConsistent` | backend/lib/library/data_store.rb:130-139 | Freshly numbered books, together with borrowings of only those books, keep the invariant when the added part is consistent on its own. |
| `Consistency.ReturnNeverReactivates` | backend/lib/library/borrowing.rb:35 | A return never makes a returned borrowing active again. |
| `Consistency.UnchangedNeverReactivates` | backend/lib/library/borrowing.rb:30-33 | A failed return leaves every returned borrowing returned. |
| `Consistency.AppendNeverReactivates` | backend/lib/library/data_store.rb:90-102 | A new borrowing with a fresh id reactivates nothing. |
| `Consistency.DeleteNeverReactivates` | backend/lib/library/data_store.rb:82 | The cascade delete reactivates nothing. |
| `Authentication.RegisterError` | backend/lib/library/authentication.rb:15-18 | The first failing check, in this order: role, blank email, blank password, exact-match taken email. Each error holds exactly when its check is the first to fail. None exactly when all pass. |
| `Authentication.RegisterKeepsEmailsUnique` | backend/lib/library/authentication.rb:18-20 | A registration that passes the checks keeps emails unique. |
| `Authentication.Authentication.constructor` | backend/lib/library/authentication.rb:10-12 | The service works on the given store. |
| `Authentication.Authentication.Register` | backend/lib/library/authentication.rb:14-22 | The role defaults to member. A failed check leaves users and counter unchanged and answers its message. Otherwise one user is appended and answered without the password. |
| `Authentication.Authentication.Login` | backend/lib/library/authentication.rb:24-30 | Unknown email or wrong password: no session and no token change. On an exact match, the token maps to the user and then resolves to that user. |
| `DataStore.Store.TokenOwner` | backend/lib/library/data_store.rb:43-45 | The owner's id exactly when the token is known, and then the id stored for it. |
| `Authentication.Authentication.Logout` | backend/lib/library/authentication.rb:32-34 | Forgets the token and answers its former owner. A second logout changes nothing. The token no longer resolves. |
| `Authentication.Authentication.CurrentUser` | backend/lib/library/authentication.rb:36-39 | Defined exactly when the token is known and its user exists. The answer is that user without the password. |
| `BookManagement.MissingMessage` | backend/lib/library/book_management.rb:53 | The message starts with `missing fields: `, then the first missing attribute. A lone attribute ends it. With more, `, ` follows. Every missing attribute's name occurs in the message; `MissingMessageSnoc` fixes their order. |
| `BookManagement.MissingMessageSnoc` | backend/lib/library/book_management.rb:53 | One more missing attribute appends `, ` and its name, so the message lists exactly the missing attributes, in their order, and nothing else. |
| `Text.JoinSnoc` | backend/lib/library/book_management.rb:53 | `join` of one more part appends the separator and that part. |
| `Text.JoinHasPart` | backend/lib/library/book_management.rb:53 | Every part of a `join`ed list occurs in the joined text. |
| `BookManagement.MissingFields` | backend/lib/library/book_management.rb:50-54 | Exactly the required attributes that are absent or blank, in the fixed order title, author, genre, isbn, total_copies. Empty exactly when the attributes are complete. |
| `BookManagement.Matching` | backend/lib/library/book_management.rb:34-42 | Exactly the books passing every filter, as a subsequence of the catalog in order. |
| `BookManagement.MatchingStep` | backend/lib/library/book_management.rb:37-39 | Narrowing a result by one more filter equals searching with the longer query. A blank filter changes nothing. |
| `BookManagement.MatchingOrderIrrelevant` | backend/lib/library/book_management.rb:36-40 | Filters combine by AND: two queries with the same filters give the same books, whatever the order or repetition. |
| `BookManagement.MatchingBlankIsAll` | backend/lib/library/book_management.rb:37 | A query whose values are all blank returns the whole catalog, in order. |
| `BookManagement.MatchesIgnoresCase` | backend/lib/library/book_management.rb:39 | One filter matches a book exactly when its lowercased value does. |
| `BookManagement.MatchingIgnoresCase` | backend/lib/library/book_management.rb:36-40 | Lowercasing every filter value of a query does not change the result. |
| `BookManagement.BookManagement.constructor` | backend/lib/library/book_management.rb:8-10 | The service works on the given store. |
| `BookManagement.BookManagement.AddBook` | backend/lib/library/book_management.rb:12-16 | Role check first, then validation, each failure leaving the catalog and counter unchanged. Otherwise the validated book is appended with the next id. |
| `BookManagement.BookManagement.UpdateBook` | backend/lib/library/book_management.rb:18-24 | Non-librarian: forbidden, catalog unchanged. Unknown id: not found, catalog unchanged. Otherwise the book is patched in place. |
| `BookManagement.BookManagement.DeleteBook` | backend/lib/library/book_management.rb:26-32 | Non-librarian: forbidden. Unknown id: not found. Both leave both tables unchanged. Otherwise the book and its borrowings are removed. |
| `BookManagement.BookManagement.Search` | backend/lib/library/book_management.rb:34-42 | The loop skipping blank values and narrowing by the rest answers exactly `Matching` of the catalog and the whole query. |
| `Borrowing.BorrowError` | backend/lib/library/borrowing.rb:13-24 | The first failing check, in the code's order: member role, book exists, a copy free, no active borrowing of the book yet. Each error, `already borrowed` included, holds exactly when its check is the first to fail. None exactly when all pass. |
| `Borrowing.RebookingOnlyCopyIsUnavailable` | backend/lib/library/borrowing.rb:18-24 | A member holding the only copy who asks again is told `unavailable`, not `already borrowed`. |
| `Borrowing.NewLoan` | backend/lib/library/borrowing.rb:26 | A new borrowing carries the given id, user and book, starts today, is due 14 days later and is active. |
| `Borrowing.BorrowKeepsConsistent` | backend/lib/library/borrowing.rb:12-27 | A borrow that passes every check keeps the cross-table invariant and reactivates nothing. |
| `Borrowing.BorrowWithinCopies` | backend/lib/library/borrowing.rb:18-20 | After a borrow that passed the checks, the book's active borrowings stay within its copies. |
| `Borrowing.Returned` | backend/lib/library/borrowing.rb:35 | The returned borrowing is inactive, its return day is today, and no other field changes. |
| `Borrowing.Borrowing.constructor` | backend/lib/library/borrowing.rb:8-10 | The service works on the given store. |
| `Borrowing.Borrowing.BorrowBook` | backend/lib/library/borrowing.rb:12-27 | A failed check answers its message and leaves borrowings and counter unchanged. Success appends one active borrowing due in 14 days, and the book never exceeds its copies. |
| `Borrowing.Borrowing.ReturnBook` | backend/lib/library/borrowing.rb:29-37 | Non-librarian: forbidden. Unknown id: not found. Both change nothing. Otherwise the first borrowing with the id gets today's return date, even one already returned. A returned borrowing is never reactivated. |
| `Borrowing.Borrowing.BorrowingsFor` | backend/lib/library/borrowing.rb:39-43 | All borrowings for a librarian. For anyone else, exactly their own, returned ones included, as a subsequence in store order. |
| `Dashboard.SummaryOf` | backend/lib/library/dashboard.rb:42-47 | The user's id and email. None exactly when no user has the id. |
| `Dashboard.Summaries` | backend/lib/library/dashboard.rb:24 | Holds exactly the summaries of the borrowers that can be found (`compact`). At most one per borrowing. |
| `Dashboard.SummariesSingle` | backend/lib/library/dashboard.rb:24 | One borrowing yields its borrower's summary, or nothing when the borrower cannot be found (`compact`). |
| `Dashboard.SummariesAppend` | backend/lib/library/dashboard.rb:24 | `map` and `compact` keep the borrowings' order: the summaries of two runs of borrowings are those of the first followed by those of the second. |
| `Dashboard.OverdueMembers` | backend/lib/library/dashboard.rb:19-24 | Without duplicates. Holds exactly the users with an active borrowing due on or before today. |
| `Dashboard.OverdueMembersInFirstOccurrenceOrder` | backend/lib/library/dashboard.rb:24 | `uniq` keeps each overdue member at the position of its first overdue borrowing. |
| `Dashboard.LibrarianViewOf` | backend/lib/library/dashboard.rb:18-26 | `total_books` is the catalog size. |
| `Dashboard.CountsWithinBorrowed` | backend/lib/library/dashboard.rb:21-24 | `due_today` and the number of overdue members are at most `total_borrowed`, which is at most the number of borrowings. |
| `Dashboard.BorrowRaisesTotalBorrowed` | backend/lib/library/dashboard.rb:22 | An active borrowing appended adds one to `total_borrowed`. |
| `Dashboard.ReturnLowersTotalBorrowed` | backend/lib/library/dashboard.rb:22 | A return takes one off `total_borrowed` if the borrowing was active, and nothing otherwise. |
| `Dashboard.BorrowKeepsDueToday` | backend/lib/library/dashboard.rb:23 | A new borrowing, due 14 days out, leaves `due_today` unchanged. |
| `Dashboard.ReturnLowersDueToday` | backend/lib/library/dashboard.rb:23 | A return takes one off `due_today` exactly when the borrowing was active and due today, and nothing otherwise. |
| `Dashboard.TitleOf` | backend/lib/library/dashboard.rb:32-34 | A title exactly when the borrowed book still exists, and then it is the title of a catalog book with that id. A deleted book gives none, not an error. |
| `Dashboard.MemberViewOf` | backend/lib/library/dashboard.rb:28-40 | One line per active borrowing of the member, in order. Each line has that book's title, the due date, and overdue exactly when the due date is before today. |
| `Dashboard.BorrowAddsMemberLine` | backend/lib/library/dashboard.rb:28-40 | A new borrowing adds exactly one line at the end, due in 14 days and not overdue. |
| `Dashboard.DueTodayBoundary` | backend/lib/library/dashboard.rb:19-36 | A borrowing due exactly today lists its holder among overdue members, while the member's own line is not flagged. |
| `Dashboard.ReturnClearsOverdue` | backend/lib/library/dashboard.rb:19 | Once a member's only overdue borrowing is returned, the member is no longer listed. |
| `Dashboard.ForUser` | backend/lib/library/dashboard.rb:12-14 | For the librarian role, exactly the librarian view of the tables. For any other role, exactly the member view of that user's borrowings. |
| `Text.BlankIsStripEmpty` | backend/lib/library/book_management.rb:52 | Blank means exactly "empty after `strip`". |
| `Text.DowncaseStrip` | backend/lib/library/registry.rb:23-24 | `strip` and `downcase` commute. |
| `Text.StripPadding` | backend/lib/library/registry.rb:23 | `strip` ignores whitespace on either side. |
| `Registry.Truthy` | backend/lib/library/registry.rb:20-27 | A missing or blank setting is false, and so is one reading `false` or `0` after `strip` and `downcase`. Any other setting is true. |
| `Registry.TruthyIgnoresCase` | backend/lib/library/registry.rb:24 | The letter case of the setting does not matter. |
| `Registry.TruthyIgnoresPadding` | backend/lib/library/registry.rb:23 | Whitespace around the setting does not matter. |
| `Registry.TrueIsTruthy` | backend/lib/library/registry.rb:20-27 | The setting `true` is truthy. |
| `Registry.SeedSetting` | backend/lib/library/registry.rb:9 | The default `seed:` is the sample-data variable when it is set, otherwise the preset variable. |
| `Registry.FalseSampleDataOverridesPreset` | backend/lib/library/registry.rb:9-11 | `SEED_SAMPLE_DATA=false` turns seeding off even when a preset is named. |
| `Registry.Registry.constructor` | backend/lib/library/registry.rb:7 | Before any reset, the registry holds no store and no services. |
| `Registry.Registry.ResetAsWritten` | backend/lib/library/registry.rb:9-16 | As written: a fresh empty store is installed. A truthy setting then fails, leaving the old services. A falsy one rebuilds the services over the new store. |
| `Registry.Registry.Reset` | backend/lib/library/registry.rb:9-16 | A fresh store, seeded with the sample data exactly when the setting is truthy, shared by three fresh services. |
| `Registry.NewStore` | backend/lib/library/registry.rb:10-11 | The store `reset!` builds: the sample tables when truthy, empty tables otherwise. |
| `Registry.ResetConsistent` | backend/lib/library/registry.rb:10-11 | Both stores `reset!` can build satisfy the cross-table invariant. |

## Left out

- Token generation (`SecureRandom.hex`) is not modelled. `login` takes the fresh token as a parameter.
- `Date.today` is not read. Every service takes `today` as a day number.
- Hashes are modelled as records. Only the five book attributes exist, so the extra keys that `update_book` would copy into a book (including `:id`) are not modelled.
- `total_copies` is always an integer. `to_i` coercion of text is not modelled, and neither is `update_book` storing a non-integer. A `total_copies` given as blank text therefore never counts as missing.
- `nil` text attributes are modelled as absent (`None`), and `false` as a patch value is not modelled.
- `register`'s role is an optional text, where `None` stands for an omitted role (which defaults to member). An explicit `role: nil` therefore cannot be written; Ruby would reject it as invalid. Any other invalid role is rejected as in Ruby.
- `downcase` folds ASCII letters only. Unicode case mapping is not modelled.
- Search criteria are limited to the five book attributes. Keys naming other attributes (`id`) are not modelled.
- `Consistency.UpdateBookKeepsConsistent`: requires the new number of copies to cover the book's active borrowings. `update_book` does not check this, so lowering `total_copies` below the active borrowings can break "within copies".
- `Consistency.AddBookKeepsConsistent`: requires non-negative copies. `add_book!` accepts a negative `total_copies`, and such a book simply cannot be borrowed.
- `Dashboard.LibrarianViewOf`: its own contract states only `total_books`. `total_borrowed` is stated by `BorrowRaisesTotalBorrowed` and `ReturnLowersTotalBorrowed`; `due_today` by `BorrowKeepsDueToday` and `ReturnLowersDueToday`; both, with the overdue list, are bounded by `CountsWithinBorrowed`. The overdue list itself is stated by `OverdueMembers`, and the boundary between overdue and due today by `DueTodayBoundary`.
- Returned hashes alias the store's records in Ruby, so a caller could mutate the store through them. The model answers values.
- Concurrency is not modelled. Two simultaneous borrows could both pass the availability check in Ruby.
- The dashboard service is modelled as functions over the store's tables, not as an object: it has no state of its own.
- The sample data takes `today` as a parameter. The seed presets of `backend/lib/library/seed_data.rb` are not part of this model: `seed_sample_data!` as written accepts no preset, and `reset!` passing one is rejected with `ArgumentError` (see Findings).
- The HTTP layer, controllers, JSON rendering and the mapping of errors to status codes are not part of this model.

## Findings

| source | as written | input that shows it | evidently intended | confidence | as-written member | corrected member |
|---|---|---|---|---|---|---|
| backend/lib/library/registry.rb:11 | `reset!` calls `seed_sample_data!(preset: …)`, but `seed_sample_data!` (backend/lib/library/data_store.rb:125) takes no arguments, so Ruby raises `ArgumentError` ("wrong number of arguments (given 1, expected 0)", `Registry.SEED_ARITY_ERROR`) after the new store is installed and before the services are rebuilt | any truthy setting, such as `reset!(seed: true)` from backend/db/seeds.rb:7 (`Registry.TrueIsTruthy`) | seed the new store, then build the services over it | high, not executed | `Registry.Registry.ResetAsWritten` | `Registry.Registry.Reset` |
