/** Registration, login and the token lifecycle. Every user this service hands back has its
    password removed (`SafeUser`). */
module Authentication {
  import opened Wrappers
  import opened Text
  import opened Records
  import opened Tables
  import opened DataStore

  const ROLE_INVALID: string := "role must be librarian or member"
  const EMAIL_REQUIRED: string := "email required"
  const PASSWORD_REQUIRED: string := "password required"
  const EMAIL_TAKEN: string := "email taken"

  /** What a successful `login` answers: the new token and the user it belongs to. */
  datatype Session = Session(token: string, user: SafeUser)

  /** The first of `register`'s checks that fails, in the order it makes them: role, email,
      password, then the exact-match duplicate test; `None` when all pass. */
  function RegisterError(users: seq<User>, email: string, password: string, role: string): (r: Option<string>)
    ensures r.None? <==> role in ALLOWED_ROLES && !Blank(email) && !Blank(password)
                         && forall u :: u in users ==> u.email != email
    ensures r == Some(ROLE_INVALID) <==> role !in ALLOWED_ROLES
    ensures r == Some(EMAIL_REQUIRED) <==> role in ALLOWED_ROLES && Blank(email)
    ensures r == Some(PASSWORD_REQUIRED) <==> role in ALLOWED_ROLES && !Blank(email) && Blank(password)
    ensures r == Some(EMAIL_TAKEN) <==> role in ALLOWED_ROLES && !Blank(email) && !Blank(password)
                                        && exists u :: u in users && u.email == email
  {
    if role !in ALLOWED_ROLES then Some(ROLE_INVALID)
    else if Blank(email) then Some(EMAIL_REQUIRED)
    else if Blank(password) then Some(PASSWORD_REQUIRED)
    else if FindUserByEmail(users, email).Some? then Some(EMAIL_TAKEN)
    else None
  }

  /** No two users share an email. */
  ghost predicate EmailsUnique(users: seq<User>) {
    forall i, j :: 0 <= i < j < |users| ==> users[i].email != users[j].email
  }

  /** A registration that passes the checks keeps emails unique: the duplicate test compares
      exactly the strings that are stored. */
  lemma RegisterKeepsEmailsUnique(users: seq<User>, id: int, email: string, password: string, role: string)
    requires EmailsUnique(users) && RegisterError(users, email, password, role).None?
    ensures EmailsUnique(users + [User(id, email, password, role)])
  {
    var after := users + [User(id, email, password, role)];
    forall i, j | 0 <= i < j < |after|
      ensures after[i].email != after[j].email
    {
      if j == |users| {
        assert after[i] in users;
      } else {
        assert after[i] == users[i] && after[j] == users[j];
      }
    }
  }

  class Authentication {
    const store: Store

    constructor (store: Store)
      ensures this.store == store
    {
      this.store := store;
    }

    /** `register`: the role defaults to member when it is not given; a registration that
        fails a check leaves the users untouched. */
    method Register(email: string, password: string, role: Option<string>) returns (r: Result<SafeUser>)
      requires store.Valid()
      modifies store`users, store`userSeq
      ensures store.Valid()
      ensures RegisterError(old(store.users), email, password, role.GetOr(MEMBER)).Some? ==>
                r == Err(RegisterError(old(store.users), email, password, role.GetOr(MEMBER)).value)
                && store.users == old(store.users) && store.userSeq == old(store.userSeq)
      ensures RegisterError(old(store.users), email, password, role.GetOr(MEMBER)).None? ==>
                store.userSeq == old(store.userSeq) + 1
                && store.users == old(store.users) + [User(store.userSeq, email, password, role.GetOr(MEMBER))]
                && r == Ok(SafeUser(store.userSeq, email, role.GetOr(MEMBER)))
    {
      var roleName := role.GetOr(MEMBER);
      var error := RegisterError(store.users, email, password, roleName);
      if error.Some? {
        return Err(error.value);
      }
      var user := store.CreateUser(email, password, roleName);
      r := Ok(Sanitize(user));
    }

    /** `current_user`: the owner of the token, when the token is known and its user still
        resolves. */
    function CurrentUser(token: string): (r: Option<SafeUser>)
      reads store
      ensures r.Some? <==> token in store.tokens && exists u :: u in store.users && u.id == store.tokens[token]
      ensures r.Some? ==> exists u :: u in store.users && u.id == store.tokens[token] && r.value == Sanitize(u)
    {
      match store.TokenOwner(token)
      case None => None
      case Some(id) =>
        match FindUser(store.users, id)
        case None => None
        case Some(u) => Some(Sanitize(u))
    }

    /** `login`, with the fresh token supplied by the caller: issues it only for an exact
        email and password match, and the token then resolves to that user. */
    method Login(email: string, password: string, token: string) returns (r: Option<Session>)
      requires store.Valid()
      modifies store`tokens
      ensures FindUserByEmail(store.users, email).None? ==> r.None? && store.tokens == old(store.tokens)
      ensures FindUserByEmail(store.users, email).Some? && FindUserByEmail(store.users, email).value.password != password ==>
                r.None? && store.tokens == old(store.tokens)
      ensures FindUserByEmail(store.users, email).Some? && FindUserByEmail(store.users, email).value.password == password ==>
                var u := FindUserByEmail(store.users, email).value;
                r == Some(Session(token, Sanitize(u))) && store.tokens == old(store.tokens)[token := u.id]
      ensures r.Some? ==> CurrentUser(token) == Some(r.value.user)
    {
      var found := FindUserByEmail(store.users, email);
      if found.None? || found.value.password != password {
        return None;
      }
      var user := found.value;
      var t := store.StoreToken(user.id, token);
      SameIdSameRecord(store.users, UserKey, store.userSeq, user, FindUser(store.users, user.id).value);
      r := Some(Session(t, Sanitize(user)));
    }

    /** `logout`: forgets the token and answers the user id it belonged to; a second logout
        with the same token finds nothing and changes nothing. */
    method Logout(token: string) returns (owner: Option<int>)
      modifies store`tokens
      ensures owner == old(store.TokenOwner(token))
      ensures store.tokens == old(store.tokens) - {token}
      ensures owner.None? ==> store.tokens == old(store.tokens)
      ensures CurrentUser(token).None?
    {
      owner := store.DeleteToken(token);
    }
  }
}
