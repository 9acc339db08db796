/** `backend/routes/auth.js` over the user collection: registration (interns
    only, exact `@slt.com` suffix), login (suffix checked case-insensitively,
    user looked up by the exact e-mail), and the admin-only intern list.

    Password hashing, hash comparison and token signing are bcrypt and JWT
    library calls; they enter as function parameters. Admin accounts are not
    created through any route: they are part of the registry's initial
    contents. */
module Auth {
  import opened Base
  import opened JsText

  /** One user document; `passwordHash` is what `bcrypt.hash` produced. */
  datatype User = User(id: UserId, name: string, email: string, passwordHash: string, role: Role)

  /** What `/interns` returns per user: `select("name email _id")`. */
  datatype InternView = InternView(id: UserId, name: string, email: string)

  /** The login response body: the token and the user's name, e-mail and role. */
  datatype Session = Session(token: string, name: string, email: string, role: Role)

  datatype AuthError = BadDomain | AlreadyExists | InvalidCredentials | NotAdmin

  datatype Reply<T> = Accepted(value: T) | Rejected(why: AuthError)

  const Domain: string := "@slt.com"

  /** Registration accepts an e-mail only with the exact lower-case suffix. */
  predicate RegisterEmailOk(email: string)
  {
    email != "" && EndsWith(email, Domain)
  }

  /** Login lower-cases the e-mail before checking the suffix. */
  predicate LoginEmailOk(email: string)
  {
    email != "" && EndsWith(ToLower(email), Domain)
  }

  predicate EmailTaken(users: seq<User>, email: string)
  {
    exists i :: 0 <= i < |users| && users[i].email == email
  }

  /** `User.findOne({ email })`: the first user whose e-mail is exactly `email`. */
  function FirstWithEmail(users: seq<User>, email: string): (r: Option<nat>)
    ensures r.Some? ==> r.value < |users| && users[r.value].email == email
    ensures r.Some? ==> forall k :: 0 <= k < r.value ==> users[k].email != email
    ensures r.None? <==> !EmailTaken(users, email)
  {
    if users == [] then None
    else if users[0].email == email then Some(0)
    else
      var rest := FirstWithEmail(users[1..], email);
      assert EmailTaken(users, email) ==> EmailTaken(users[1..], email) by {
        if EmailTaken(users, email) {
          var i :| 0 <= i < |users| && users[i].email == email;
          assert users[1..][i - 1] == users[i];
        }
      }
      if rest.None? then None
      else
        assert users[rest.value + 1] == users[1..][rest.value];
        assert forall k :: 1 <= k <= rest.value ==> users[k] == users[1..][k - 1];
        Some(rest.value + 1)
  }

  /** POST /register: the refusal, if any, for this e-mail. */
  function RegisterCheck(users: seq<User>, email: string): Option<AuthError>
  {
    if !RegisterEmailOk(email) then Some(BadDomain)
    else if EmailTaken(users, email) then Some(AlreadyExists)
    else None
  }

  /** POST /login: the suffix check, then the user with exactly this e-mail
      and a matching password, then a token signed over its id and role. */
  function LoginReply(users: seq<User>, email: string, password: string,
                      compare: (string, string) -> bool, sign: (UserId, Role) -> string): Reply<Session>
  {
    if !LoginEmailOk(email) then Rejected(BadDomain)
    else match FirstWithEmail(users, email)
      case None => Rejected(InvalidCredentials)
      case Some(i) =>
        var u := users[i];
        if !compare(password, u.passwordHash) then Rejected(InvalidCredentials)
        else Accepted(Session(sign(u.id, u.role), u.name, u.email, u.role))
  }

  /** The users with the intern role, projected, in collection order. */
  function InternViews(users: seq<User>): (r: seq<InternView>)
    ensures forall v :: v in r <==> exists u :: u in users && u.role == Intern && v == InternView(u.id, u.name, u.email)
    ensures |r| <= |users|
  {
    if users == [] then []
    else
      var u := users[0];
      assert forall w :: w in users <==> w == u || w in users[1..];
      (if u.role == Intern then [InternView(u.id, u.name, u.email)] else []) + InternViews(users[1..])
  }

  /** GET /interns. */
  function Interns(caller: Caller, users: seq<User>): (r: Reply<seq<InternView>>)
    ensures r.Rejected? <==> caller.role != Admin
    ensures r.Rejected? ==> r.why == NotAdmin
    ensures r.Accepted? ==> r.value == InternViews(users)
  {
    if caller.role != Admin then Rejected(NotAdmin) else Accepted(InternViews(users))
  }

  /** The unique index on `email`, and ids below the next id handed out. */
  ghost predicate RegistryInvariant(users: seq<User>, nextId: nat)
  {
    (forall i, j :: 0 <= i < j < |users| ==> users[i].email != users[j].email) &&
    (forall i, j :: 0 <= i < j < |users| ==> users[i].id != users[j].id) &&
    (forall i :: 0 <= i < |users| ==> users[i].id < nextId)
  }

  /** Lower-casing keeps a suffix that has no capital letters. */
  lemma LowerKeepsSuffix(s: string, suffix: string)
    requires EndsWith(s, suffix)
    requires forall i :: 0 <= i < |suffix| ==> !('A' <= suffix[i] <= 'Z')
    ensures EndsWith(ToLower(s), suffix)
  {
    var n := |s| - |suffix|;
    var low := ToLower(s);
    forall i | 0 <= i < |suffix| ensures low[n + i] == suffix[i] {
      assert s[n + i] == s[n..][i] == suffix[i];
      assert low[n + i] == LowerChar(s[n + i]);
    }
    assert low[n..] == suffix;
  }

  /** Every e-mail registration accepts also passes the login suffix check. */
  lemma RegisteredEmailPassesLogin(email: string)
    requires RegisterEmailOk(email)
    ensures LoginEmailOk(email)
  {
    assert forall i :: 0 <= i < |Domain| ==> !('A' <= Domain[i] <= 'Z');
    LowerKeepsSuffix(email, Domain);
  }

  /** Round trip: an intern who has just registered can log in with the same
      e-mail and password, given that comparing a password with its own hash succeeds. */
  lemma RegisterThenLogin(users: seq<User>, id: UserId, name: string, email: string, password: string,
                          hash: string -> string, compare: (string, string) -> bool, sign: (UserId, Role) -> string)
    requires RegisterCheck(users, email).None?
    requires compare(password, hash(password))
    ensures LoginReply(users + [User(id, name, email, hash(password), Intern)], email, password, compare, sign)
            == Accepted(Session(sign(id, Intern), name, email, Intern))
  {
    var after := users + [User(id, name, email, hash(password), Intern)];
    RegisteredEmailPassesLogin(email);
    forall k | 0 <= k < |users| ensures after[k].email != email {
      assert after[k] == users[k];
    }
    assert after[|users|].email == email;
    assert FirstWithEmail(after, email) == Some(|users|);
  }

  /** The two suffix checks differ: an upper-case domain passes login's check
      but not registration's. */
  lemma UpperCaseDomainSplitsChecks()
    ensures LoginEmailOk("a@SLT.COM") && !RegisterEmailOk("a@SLT.COM")
  {
    var e := "a@SLT.COM";
    var low := ToLower(e);
    forall i | 0 <= i < |Domain| ensures low[1 + i] == Domain[i] {
      assert low[1 + i] == LowerChar(e[1 + i]);
    }
    assert low[|low| - |Domain|..] == Domain;
    assert e[|e| - 1] == 'M' != Domain[|Domain| - 1];
  }

  /** Since the lookup is by the exact e-mail, logging in with an upper-case
      domain fails whenever every stored e-mail has the lower-case one. */
  lemma UpperCaseDomainCannotLogIn(users: seq<User>, email: string, password: string,
                                   compare: (string, string) -> bool, sign: (UserId, Role) -> string)
    requires forall i :: 0 <= i < |users| ==> EndsWith(users[i].email, Domain)
    requires EndsWith(email, "@SLT.COM")
    ensures LoginReply(users, email, password, compare, sign).Rejected?
  {
    forall i | 0 <= i < |users| ensures users[i].email != email {
      var m := users[i].email;
      assert m[|m| - 1] == m[|m| - |Domain|..][|Domain| - 1] == 'm';
      assert email[|email| - 1] == email[|email| - 8..][7] == 'M';
    }
  }

  /** The user collection. */
  class UserRegistry {
    var users: seq<User>
    var nextId: nat

    ghost predicate Valid()
      reads this
    {
      RegistryInvariant(users, nextId)
    }

    /** A registry holding the seeded accounts (admins among them). */
    constructor (seed: seq<User>, firstFree: nat)
      requires RegistryInvariant(seed, firstFree)
      ensures Valid() && users == seed && nextId == firstFree
    {
      users := seed;
      nextId := firstFree;
    }

    /** `User.findOne({ email })`: scan in insertion order. */
    method FindByEmail(email: string) returns (found: Option<nat>)
      ensures found == FirstWithEmail(users, email)
    {
      var i := 0;
      while i < |users|
        invariant 0 <= i <= |users|
        invariant forall k :: 0 <= k < i ==> users[k].email != email
      {
        if users[i].email == email {
          return Some(i);
        }
        i := i + 1;
      }
      return None;
    }

    /** POST /register: a new intern with the hashed password. */
    method Register(name: string, email: string, password: string, hash: string -> string)
      returns (refusal: Option<AuthError>)
      requires Valid()
      modifies this
      ensures Valid()
      ensures refusal == RegisterCheck(old(users), email)
      ensures refusal.None? ==> users == old(users) + [User(old(nextId), name, email, hash(password), Intern)]
                                && nextId == old(nextId) + 1
      ensures refusal.Some? ==> users == old(users) && nextId == old(nextId)
    {
      if !RegisterEmailOk(email) {
        return Some(BadDomain);
      }
      var existing := FindByEmail(email);
      if existing.Some? {
        return Some(AlreadyExists);
      }
      users := users + [User(nextId, name, email, hash(password), Intern)];
      nextId := nextId + 1;
      return None;
    }

    /** POST /login. */
    method Login(email: string, password: string, compare: (string, string) -> bool, sign: (UserId, Role) -> string)
      returns (reply: Reply<Session>)
      ensures reply == LoginReply(users, email, password, compare, sign)
    {
      if !LoginEmailOk(email) {
        return Rejected(BadDomain);
      }
      var found := FindByEmail(email);
      if found.None? {
        return Rejected(InvalidCredentials);
      }
      var u := users[found.value];
      if !compare(password, u.passwordHash) {
        return Rejected(InvalidCredentials);
      }
      return Accepted(Session(sign(u.id, u.role), u.name, u.email, u.role));
    }
  }
}
