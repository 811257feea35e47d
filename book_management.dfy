/** The catalog service: librarian-only writes with validation of the required attributes,
    and the case-insensitive AND search over the catalog. */
module BookManagement {
  import opened Wrappers
  import opened Seqs
  import opened Text
  import opened Records
  import opened Tables
  import opened DataStore


  // ---------------------------------------------------------------------------
  // Validation (`validate_book!`)

  /** The attributes `add_book!` requires, in the order its message lists them. */
  const REQUIRED: seq<Field> := [Title, Author, Genre, Isbn, TotalCopies]

  function FieldName(f: Field): (r: string)
    ensures r != []
  {
    match f
    case Title => "title"
    case Author => "author"
    case Genre => "genre"
    case Isbn => "isbn"
    case TotalCopies => "total_copies"
  }

  /** A text attribute is missing when absent or whitespace only; the number of copies only
      when absent. */
  predicate IsMissing(attrs: BookFields, f: Field) {
    match f
    case Title => attrs.title.None? || Blank(attrs.title.value)
    case Author => attrs.author.None? || Blank(attrs.author.value)
    case Genre => attrs.genre.None? || Blank(attrs.genre.value)
    case Isbn => attrs.isbn.None? || Blank(attrs.isbn.value)
    case TotalCopies => attrs.totalCopies.None?
  }

  /** Every required attribute present, and the text ones not blank. */
  predicate Complete(attrs: BookFields) {
    && attrs.title.Some? && !Blank(attrs.title.value)
    && attrs.author.Some? && !Blank(attrs.author.value)
    && attrs.genre.Some? && !Blank(attrs.genre.value)
    && attrs.isbn.Some? && !Blank(attrs.isbn.value)
    && attrs.totalCopies.Some?
  }

  /** Position of an attribute in `REQUIRED`. */
  function Rank(f: Field): (k: nat)
    ensures k < |REQUIRED| && REQUIRED[k] == f
  {
    match f
    case Title => 0
    case Author => 1
    case Genre => 2
    case Isbn => 3
    case TotalCopies => 4
  }

  /** The missing required attributes, in the fixed order of `REQUIRED`. */
  function MissingFields(attrs: BookFields): (r: seq<Field>)
    ensures forall f :: f in r <==> IsMissing(attrs, f)
    ensures forall i, j :: 0 <= i < j < |r| ==> Rank(r[i]) < Rank(r[j])
    ensures r == [] <==> Complete(attrs)
  {
    NoneMissingIffComplete(attrs);
    MissingFrom(attrs, 0)
  }

  lemma NoneMissingIffComplete(attrs: BookFields)
    ensures MissingFrom(attrs, 0) == [] <==> Complete(attrs)
  {
    var r := MissingFrom(attrs, 0);
    if r != [] {
      assert r[0] in r;
      match r[0]
      case Title =>
      case Author =>
      case Genre =>
      case Isbn =>
      case TotalCopies =>
    }
    if !Complete(attrs) {
      if IsMissing(attrs, Title) {
        assert Title in r;
      } else if IsMissing(attrs, Author) {
        assert Author in r;
      } else if IsMissing(attrs, Genre) {
        assert Genre in r;
      } else if IsMissing(attrs, Isbn) {
        assert Isbn in r;
      } else {
        assert TotalCopies in r;
      }
    }
  }

  /** The missing attributes among `REQUIRED[k..]`, in order. */
  function MissingFrom(attrs: BookFields, k: nat): (r: seq<Field>)
    requires k <= |REQUIRED|
    ensures forall f :: f in r <==> k <= Rank(f) && IsMissing(attrs, f)
    ensures forall i, j :: 0 <= i < j < |r| ==> k <= Rank(r[i]) < Rank(r[j])
    decreases |REQUIRED| - k
  {
    if k == |REQUIRED| then []
    else
      var rest := MissingFrom(attrs, k + 1);
      var f := REQUIRED[k];
      assert Rank(f) == k;
      if IsMissing(attrs, f) then [f] + rest else rest
  }

  /** The attributes' names, in order. */
  function FieldNames(fields: seq<Field>): (r: seq<string>)
    ensures |r| == |fields|
    ensures forall i :: 0 <= i < |fields| ==> r[i] == FieldName(fields[i])
  {
    seq(|fields|, i requires 0 <= i < |fields| => FieldName(fields[i]))
  }

  /** The message `validate_book!` raises with. */
  function MissingMessage(missing: seq<Field>): (r: string)
    ensures |r| >= |MISSING_PREFIX| && r[..|MISSING_PREFIX|] == MISSING_PREFIX
    ensures |missing| == 1 ==> r == MISSING_PREFIX + FieldName(missing[0])
    ensures |missing| > 1 ==>
              var head := MISSING_PREFIX + FieldName(missing[0]) + ", ";
              |r| > |head| && r[..|head|] == head
    ensures forall f :: f in missing ==> Contains(r, FieldName(f))
  {
    var names := FieldNames(missing);
    JoinHead(MISSING_PREFIX, names, ", ");
    forall f | f in missing ensures Contains(MISSING_PREFIX + Join(names, ", "), FieldName(f)) {
      var i :| 0 <= i < |missing| && missing[i] == f;
      JoinHasPart(MISSING_PREFIX, names, ", ", i);
    }
    MISSING_PREFIX + Join(names, ", ")
  }

  const MISSING_PREFIX: string := "missing fields: "

  /** The names follow the missing attributes in order and nothing else is added: one more
      attribute appends `, ` and its name. With the one-attribute case of `MissingMessage`
      this fixes the whole message. */
  lemma MissingMessageSnoc(missing: seq<Field>, f: Field)
    requires missing != []
    ensures MissingMessage(missing + [f]) == MissingMessage(missing) + (", " + FieldName(f))
  {
    var names := FieldNames(missing);
    assert FieldNames(missing + [f]) == names + [FieldName(f)];
    JoinSnoc(names, FieldName(f), ", ");
    assert MISSING_PREFIX + (Join(names, ", ") + (", " + FieldName(f)))
        == (MISSING_PREFIX + Join(names, ", ")) + (", " + FieldName(f));
  }

  /** The book `create_book` builds from attributes that passed validation. */
  function NewBook(id: int, attrs: BookFields): Book
    requires Complete(attrs)
  {
    Book(id, attrs.title.value, attrs.author.value, attrs.genre.value, attrs.isbn.value, attrs.totalCopies.value)
  }

  // ---------------------------------------------------------------------------
  // Search

  /** One search criterion: the attribute it looks at and the text to look for. */
  type Criterion = (Field, string)

  /** `book[key].to_s`. */
  function FieldText(b: Book, f: Field): string {
    match f
    case Title => b.title
    case Author => b.author
    case Genre => b.genre
    case Isbn => b.isbn
    case TotalCopies => IntToString(b.totalCopies)
  }

  /** A book passes a filter whose value is blank, and otherwise when the lowercased value
      occurs in the lowercased attribute. */
  predicate Matches(b: Book, e: Criterion) {
    Blank(e.1) || Contains(Downcase(FieldText(b, e.0)), Downcase(e.1))
  }

  function MatchesOne(e: Criterion): Book -> bool { (b: Book) => Matches(b, e) }

  function MatchesAll(query: seq<Criterion>): Book -> bool {
    (b: Book) => forall e :: e in query ==> Matches(b, e)
  }

  /** What `search(query)` answers: the books passing every filter, in catalog order. */
  function Matching(books: seq<Book>, query: seq<Criterion>): (r: seq<Book>)
    ensures forall b :: b in r <==> b in books && forall e :: e in query ==> Matches(b, e)
    ensures IsSubseq(r, books)
  {
    Filter(books, MatchesAll(query))
  }

  /** Applying one more filter to a search result is searching with the longer query; a blank
      filter changes nothing. */
  lemma MatchingStep(books: seq<Book>, query: seq<Criterion>, e: Criterion)
    ensures Filter(Matching(books, query), MatchesOne(e)) == Matching(books, query + [e])
    ensures Blank(e.1) ==> Matching(books, query + [e]) == Matching(books, query)
  {
    assert forall b :: MatchesAll(query + [e])(b) == (MatchesAll(query)(b) && MatchesOne(e)(b)) by {
      forall b ensures MatchesAll(query + [e])(b) == (MatchesAll(query)(b) && MatchesOne(e)(b)) {
        assert forall x :: x in query + [e] <==> x in query || x == e;
      }
    }
    FilterOfFilter(books, MatchesAll(query), MatchesOne(e), MatchesAll(query + [e]));
    if Blank(e.1) {
      FilterExt(books, MatchesAll(query + [e]), MatchesAll(query));
    }
  }

  /** Filters combine by AND: reordering or repeating them gives the same result. */
  lemma MatchingOrderIrrelevant(books: seq<Book>, q1: seq<Criterion>, q2: seq<Criterion>)
    requires forall e :: e in q1 <==> e in q2
    ensures Matching(books, q1) == Matching(books, q2)
  {
    FilterExt(books, MatchesAll(q1), MatchesAll(q2));
  }

  /** With every filter value blank the whole catalog comes back, in order. */
  lemma MatchingBlankIsAll(books: seq<Book>, query: seq<Criterion>)
    requires forall e :: e in query ==> Blank(e.1)
    ensures Matching(books, query) == books
  {
    FilterAll(books, MatchesAll(query));
  }

  /** The letter case of one filter value does not matter to one book. */
  lemma MatchesIgnoresCase(b: Book, f: Field, value: string)
    ensures Matches(b, (f, value)) == Matches(b, (f, Downcase(value)))
  {
    DowncaseKeepsBlank(value);
    DowncaseTwice(value);
  }

  /** The query with every value lowercased. */
  function LowerQuery(query: seq<Criterion>): (r: seq<Criterion>)
    ensures |r| == |query|
    ensures forall i :: 0 <= i < |query| ==> r[i] == (query[i].0, Downcase(query[i].1))
  {
    seq(|query|, i requires 0 <= i < |query| => (query[i].0, Downcase(query[i].1)))
  }

  /** The letter case of the filter values does not matter, for any query. */
  lemma MatchingIgnoresCase(books: seq<Book>, query: seq<Criterion>)
    ensures Matching(books, query) == Matching(books, LowerQuery(query))
  {
    var lower := LowerQuery(query);
    forall b ensures MatchesAll(query)(b) == MatchesAll(lower)(b) {
      forall i | 0 <= i < |query| ensures Matches(b, query[i]) == Matches(b, lower[i]) {
        MatchesIgnoresCase(b, query[i].0, query[i].1);
      }
      assert (forall e :: e in query ==> Matches(b, e)) <==> (forall i :: 0 <= i < |query| ==> Matches(b, query[i]));
      assert (forall e :: e in lower ==> Matches(b, e)) <==> (forall i :: 0 <= i < |lower| ==> Matches(b, lower[i]));
    }
    FilterExt(books, MatchesAll(query), MatchesAll(lower));
  }

  // ---------------------------------------------------------------------------
  // The service

  class BookManagement {
    const store: Store

    constructor (store: Store)
      ensures this.store == store
    {
      this.store := store;
    }

    /** `add_book!`: the role check comes first, then validation; only a librarian's valid
        attributes create a book. */
    method AddBook(actor: Option<SafeUser>, attrs: BookFields) returns (r: Result<Book>)
      requires store.Valid()
      modifies store`books, store`bookSeq
      ensures store.Valid()
      ensures !Acts(actor, LIBRARIAN) ==>
                r == Err(FORBIDDEN) && store.books == old(store.books) && store.bookSeq == old(store.bookSeq)
      ensures Acts(actor, LIBRARIAN) && MissingFields(attrs) != [] ==>
                r == Err(MissingMessage(MissingFields(attrs)))
                && store.books == old(store.books) && store.bookSeq == old(store.bookSeq)
      ensures Acts(actor, LIBRARIAN) && MissingFields(attrs) == [] ==>
                store.bookSeq == old(store.bookSeq) + 1 && r == Ok(NewBook(store.bookSeq, attrs))
                && store.books == old(store.books) + [r.value]
    {
      if !Acts(actor, LIBRARIAN) {
        return Err(FORBIDDEN);
      }
      var missing := MissingFields(attrs);
      if missing != [] {
        return Err(MissingMessage(missing));
      }
      var b := store.CreateBook(attrs.title.value, attrs.author.value, attrs.genre.value, attrs.isbn.value,
                                attrs.totalCopies.value);
      r := Ok(b);
    }

    /** `update_book!`: a librarian patches the book in place; an unknown id changes nothing. */
    method UpdateBook(actor: Option<SafeUser>, id: int, patch: BookFields) returns (r: Result<Book>)
      requires store.Valid()
      modifies store`books
      ensures store.Valid()
      ensures !Acts(actor, LIBRARIAN) ==> r == Err(FORBIDDEN) && store.books == old(store.books)
      ensures Acts(actor, LIBRARIAN) && BookIndex(old(store.books), id).None? ==>
                r == Err(BOOK_NOT_FOUND) && store.books == old(store.books)
      ensures Acts(actor, LIBRARIAN) && BookIndex(old(store.books), id).Some? ==>
                var k := BookIndex(old(store.books), id).value;
                r == Ok(Patch(old(store.books)[k], patch)) && store.books == old(store.books)[k := r.value]
    {
      if !Acts(actor, LIBRARIAN) {
        return Err(FORBIDDEN);
      }
      var updated := store.UpdateBook(id, patch);
      if updated.None? {
        return Err(BOOK_NOT_FOUND);
      }
      r := Ok(updated.value);
    }

    /** `delete_book!`: a librarian removes the book together with its borrowings. */
    method DeleteBook(actor: Option<SafeUser>, id: int) returns (r: Result<Book>)
      requires store.Valid()
      modifies store`books, store`loans
      ensures store.Valid()
      ensures !Acts(actor, LIBRARIAN) ==>
                r == Err(FORBIDDEN) && store.books == old(store.books) && store.loans == old(store.loans)
      ensures Acts(actor, LIBRARIAN) && FindBook(old(store.books), id).None? ==>
                r == Err(BOOK_NOT_FOUND) && store.books == old(store.books) && store.loans == old(store.loans)
      ensures Acts(actor, LIBRARIAN) && FindBook(old(store.books), id).Some? ==>
                r == Ok(FindBook(old(store.books), id).value)
                && store.books == Filter(old(store.books), Other(r.value))
                && store.loans == Filter(old(store.loans), NotOfBook(id))
    {
      if !Acts(actor, LIBRARIAN) {
        return Err(FORBIDDEN);
      }
      var deleted := store.DeleteBook(id);
      if deleted.None? {
        return Err(BOOK_NOT_FOUND);
      }
      r := Ok(deleted.value);
    }

    /** `search`: starts from the whole catalog and narrows it by each non-blank filter in
        turn. */
    method Search(query: seq<Criterion>) returns (r: seq<Book>)
      ensures r == Matching(store.books, query)
    {
      r := store.books;
      MatchingBlankIsAll(store.books, []);
      var i := 0;
      while i < |query|
        invariant 0 <= i <= |query|
        invariant r == Matching(store.books, query[..i])
      {
        var e := query[i];
        MatchingStep(store.books, query[..i], e);
        if !Blank(e.1) {
          r := Filter(r, MatchesOne(e));
        }
        assert query[..i + 1] == query[..i] + [e];
        i := i + 1;
      }
      assert query[..i] == query;
    }
  }
}
