/** The process-wide registry: one store shared by the services, rebuilt on demand and
    optionally seeded with the sample data. */
module Registry {
  import opened Wrappers
  import opened Text
  import opened Records
  import opened Tables
  import opened DataStore
  import opened Authentication
  import opened BookManagement
  import opened Borrowing

  /** `truthy?`: a missing setting is false, and so is one that is empty after `strip` or reads
      `false` or `0` in any letter case; anything else is true. */
  function Truthy(value: Option<string>): (r: bool)
    ensures value.None? ==> !r
    ensures value.Some? && Blank(value.value) ==> !r
    ensures value.Some? && Downcase(Strip(value.value)) in {"false", "0"} ==> !r
    ensures value.Some? && !Blank(value.value) && Downcase(Strip(value.value)) !in {"false", "0"} ==> r
  {
    match value
    case None => false
    case Some(s) =>
      BlankIsStripEmpty(s);
      var normalized := Strip(s);
      normalized != "" && Downcase(normalized) != "false" && Downcase(normalized) != "0"
  }

  /** The letter case of the setting does not matter. */
  lemma TruthyIgnoresCase(s: string)
    ensures Truthy(Some(Downcase(s))) == Truthy(Some(s))
  {
    DowncaseStrip(s);
    DowncaseTwice(Strip(s));
  }

  /** Whitespace around the setting does not matter. */
  lemma TruthyIgnoresPadding(w1: string, s: string, w2: string)
    requires Blank(w1) && Blank(w2)
    ensures Truthy(Some(w1 + s + w2)) == Truthy(Some(s))
  {
    StripPadding(w1, s, w2);
  }

  /** The default `seed:` argument, `SEED_SAMPLE_DATA || SEED_PRESET`: the first variable that
      is set wins, whatever its value. */
  function SeedSetting(sampleData: Option<string>, preset: Option<string>): (r: Option<string>)
    ensures r.None? <==> sampleData.None? && preset.None?
    ensures sampleData.Some? ==> r == sampleData
    ensures sampleData.None? ==> r == preset
  {
    if sampleData.Some? then sampleData else preset
  }

  /** `SEED_SAMPLE_DATA=false` switches seeding off even when a preset is named (the setting
      is a pinned parameter for the reason given at `TrueIsTruthy`). */
  lemma FalseSampleDataOverridesPreset(s: string, preset: Option<string>)
    requires s == "false"
    ensures !Truthy(SeedSetting(Some(s), preset))
  {
    StripUnpadded(s);
    DowncaseNoCapitals(s);
  }

  /** Ruby's `ArgumentError` when `seed_sample_data!`, which declares no parameters, is passed
      `preset:`: the keyword arrives as one positional hash. */
  const SEED_ARITY_ERROR: string := "wrong number of arguments (given 1, expected 0)"

  /** `true.to_s`, the setting the seeding script passes, is truthy. The string is a parameter
      pinned by `requires` rather than a literal in the `ensures`: with a literal, the verifier
      unfolds `Strip` and `Downcase` on it eagerly and the proof becomes very costly. */
  lemma TrueIsTruthy(s: string)
    requires s == "true"
    ensures Truthy(Some(s))
  {
    StripUnpadded(s);
    DowncaseNoCapitals(s);
    assert |s| == 4;
  }

  class Registry {
    var store: Store?
    var auth: Authentication?
    var catalog: BookManagement?
    var lending: Borrowing?

    constructor ()
      ensures store == null && auth == null && catalog == null && lending == null
    {
      store, auth, catalog, lending := null, null, null, null;
    }

    /** `reset!` as written: the new store is installed first, then seeding passes `preset:` to
        a method that accepts no arguments, which raises before the services are rebuilt. A
        truthy setting therefore leaves an empty, unseeded store beside the old services. */
    method ResetAsWritten(seed: Option<string>) returns (r: Result<()>)
      modifies this
      ensures store != null && fresh(store) && store.Valid()
      ensures store.users == [] && store.books == [] && store.loans == [] && !store.seeded
      ensures Truthy(seed) <==> r == Err(SEED_ARITY_ERROR)
      ensures Truthy(seed) ==> auth == old(auth) && catalog == old(catalog) && lending == old(lending)
      ensures !Truthy(seed) ==>
                r.Ok? && auth != null && catalog != null && lending != null
                && auth.store == store && catalog.store == store && lending.store == store
    {
      var s := new Store();
      store := s;
      if Truthy(seed) {
        return Err(SEED_ARITY_ERROR);
      }
      auth := new Authentication(s);
      catalog := new BookManagement(s);
      lending := new Borrowing(s);
      r := Ok(());
    }

    /** `reset!`: a new empty store, seeded with the sample data when the setting is truthy,
        and fresh services that all share it. */
    method Reset(seed: Option<string>, today: int)
      modifies this
      ensures store != null && fresh(store) && store.Valid() && store.tokens == map[]
      ensures auth != null && catalog != null && lending != null
      ensures fresh(auth) && fresh(catalog) && fresh(lending)
      ensures auth.store == store && catalog.store == store && lending.store == store
      ensures Truthy(seed) ==>
                store.seeded && store.users == SampleUsers(0) && store.books == SampleBooks(0)
                && store.loans == SampleLoans(0, 2, 0, today)
      ensures !Truthy(seed) ==>
                !store.seeded && store.users == [] && store.books == [] && store.loans == []
    {
      var s := NewStore(seed, today);
      store := s;
      auth := new Authentication(s);
      catalog := new BookManagement(s);
      lending := new Borrowing(s);
    }
  }

  /** The store `reset!` builds. */
  method NewStore(seed: Option<string>, today: int) returns (s: Store)
    ensures fresh(s) && s.Valid() && s.tokens == map[]
    ensures Truthy(seed) ==>
              s.seeded && s.users == SampleUsers(0) && s.books == SampleBooks(0)
              && s.loans == SampleLoans(0, 2, 0, today)
    ensures !Truthy(seed) ==> !s.seeded && s.users == [] && s.books == [] && s.loans == []
  {
    s := new Store();
    if Truthy(seed) {
      s.SeedSampleData(today);
    }
  }

  /** Whatever the setting, the tables `reset!` starts from satisfy the cross-table invariant:
      no book over its copies, one active borrowing per member and book, no dangling borrowing. */
  lemma ResetConsistent(today: int)
    ensures LoansConsistent([], [])
    ensures LoansConsistent(SampleBooks(0), SampleLoans(0, 2, 0, today))
  {
    SeedKeepsConsistent([], [], 0, 0, 2, today);
    assert [] + SampleBooks(0) == SampleBooks(0);
    assert [] + SampleLoans(0, 2, 0, today) == SampleLoans(0, 2, 0, today);
  }
}
