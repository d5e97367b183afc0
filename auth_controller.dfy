/** Registration and login. The user table is a map from email to user row; the
    password-hashing library and the token library are collaborators given as
    values of function type, and what the handlers rely on from them is stated
    as predicates (`Sound`, `Consistent`) that the lemmas assume. */
module AuthController {
  import opened Http

  /** The cost factor `register` passes to the hash. */
  const SaltRounds: nat := 10

  const CredentialsRequired := "Email and password are required."
  const UserExists := "User already exists."
  const InvalidCredentials := "Invalid credentials."
  const RegisteredMessage := "User registered successfully."
  const LoginSucceeded := "Login successful."

  /** A row of the user table; `pwHash` is the stored digest of the password. */
  datatype User = User(id: int, email: string, pwHash: string)

  /** What the handlers send back about a user: never the digest. */
  datatype PublicUser = PublicUser(id: int, email: string)

  datatype RegisterReply = RegisterReply(message: string, user: PublicUser)
  datatype LoginReply = LoginReply(message: string, token: string, user: PublicUser)

  /** The hashing library: `hash(password, rounds, salt)`, where `salt` is the
      randomness the library draws on each call, and `compare(password, digest)`. */
  datatype Hasher = Hasher(hash: (string, nat, nat) -> string, compare: (string, string) -> bool)

  /** A password matches every digest made from it. */
  ghost predicate Sound(h: Hasher) {
    forall password, salt :: h.compare(password, h.hash(password, SaltRounds, salt))
  }

  /** `s` is an output of the hash at the handlers' cost factor. */
  ghost predicate IsDigest(h: Hasher, s: string) {
    exists password, salt :: s == h.hash(password, SaltRounds, salt)
  }

  /** The token library: `sign` is `generateToken`, `verify` the check the
      middleware runs (None when it throws). */
  datatype Tokens = Tokens(sign: int -> string, verify: string -> Option<int>)

  /** A signed token verifies to the id it was signed for, and, like every
      token the library produces, contains no space. */
  ghost predicate Consistent(t: Tokens) {
    forall id :: t.verify(t.sign(id)) == Some(id) && ' ' !in t.sign(id)
  }

  /** No two rows share an email. */
  ghost predicate UniqueEmails(users: map<string, User>) {
    forall e1, e2 :: e1 in users && e2 in users && e1 != e2 ==> users[e1].email != users[e2].email
  }

  /** The user table. */
  class UserStore {
    const hasher: Hasher
    var users: map<string, User>
    var nextId: int

    /** Each row is stored under its own email, has a positive id below the
        autoincrement counter that no other row has, and holds a digest. */
    ghost predicate Valid()
      reads this
    {
      && nextId >= 1
      && (forall e :: e in users ==>
            users[e].email == e && 1 <= users[e].id < nextId && IsDigest(hasher, users[e].pwHash))
      && (forall e1, e2 :: e1 in users && e2 in users && e1 != e2 ==> users[e1].id != users[e2].id)
    }

    constructor (hasher: Hasher)
      ensures Valid() && this.hasher == hasher && users == map[] && nextId == 1
    {
      this.hasher := hasher;
      users := map[];
      nextId := 1;
    }

    /** `register`: 400 without an email or a password, 400 when the email is
        taken (whatever the password); otherwise one new row holding the digest
        of the password, answered with 201 and the new user's id and email.
        `salt` is the randomness the hash draws. */
    method Register(email: Option<string>, password: Option<string>, salt: nat)
      returns (r: Response<RegisterReply>)
      requires Valid()
      modifies this
      ensures Valid() && UniqueEmails(users)
      ensures !(Filled(email) && Filled(password)) ==> r == Failure(400, CredentialsRequired)
      ensures Filled(email) && Filled(password) && email.value in old(users) ==> r == Failure(400, UserExists)
      ensures r.Success? <==> Filled(email) && Filled(password) && email.value !in old(users)
      ensures r.Failure? ==> users == old(users) && nextId == old(nextId)
      ensures r.Success? ==>
                && r == Success(201, RegisterReply(RegisteredMessage, PublicUser(old(nextId), email.value)))
                && users == old(users)[email.value := User(old(nextId), email.value, hasher.hash(password.value, SaltRounds, salt))]
                && |users| == |old(users)| + 1
                && nextId == old(nextId) + 1
    {
      if !Filled(email) || !Filled(password) {
        return Failure(400, CredentialsRequired);
      }
      if email.value in users {
        return Failure(400, UserExists);
      }
      var digest := hasher.hash(password.value, SaltRounds, salt);
      assert IsDigest(hasher, digest);
      var user := User(nextId, email.value, digest);
      users := users[email.value := user];
      nextId := nextId + 1;
      r := Success(201, RegisterReply(RegisteredMessage, PublicUser(user.id, user.email)));
    }
  }

  /** `login`: 400 without an email or a password; the same 400 "Invalid
      credentials." for an unknown email and for a wrong password; otherwise a
      token for the user's id with the user's id and email. It only reads the
      table. */
  function Login(users: map<string, User>, email: Option<string>, password: Option<string>, h: Hasher, t: Tokens)
    : (r: Response<LoginReply>)
    ensures !(Filled(email) && Filled(password)) ==> r == Failure(400, CredentialsRequired)
    ensures r.Success? <==>
              Filled(email) && Filled(password) && email.value in users
              && h.compare(password.value, users[email.value].pwHash)
    ensures r.Failure? ==> r.status == 400
    ensures r.Success? ==>
              var u := users[email.value];
              r == Success(200, LoginReply(LoginSucceeded, t.sign(u.id), PublicUser(u.id, u.email)))
  {
    if !Filled(email) || !Filled(password) then Failure(400, CredentialsRequired)
    else if email.value !in users then Failure(400, InvalidCredentials)
    else
      var u := users[email.value];
      if !h.compare(password.value, u.pwHash) then Failure(400, InvalidCredentials)
      else Success(200, LoginReply(LoginSucceeded, t.sign(u.id), PublicUser(u.id, u.email)))
  }

  /** Both failures get the identical response. */
  lemma UnknownEmailLooksLikeWrongPassword(users: map<string, User>, h: Hasher, t: Tokens,
                                           unknown: string, p1: string, known: string, p2: string)
    requires unknown != "" && p1 != "" && known != "" && p2 != ""
    requires unknown !in users && known in users && !h.compare(p2, users[known].pwHash)
    ensures Login(users, Some(unknown), Some(p1), h, t) == Login(users, Some(known), Some(p2), h, t)
    ensures Login(users, Some(unknown), Some(p1), h, t) == Failure(400, InvalidCredentials)
  {
  }

  /** Logging in with the password a row was registered with succeeds and
      returns a token for that row's id. */
  lemma LoginAfterRegister(users: map<string, User>, h: Hasher, t: Tokens,
                           email: string, password: string, salt: nat, id: int)
    requires Sound(h)
    requires email != "" && password != ""
    requires email in users && users[email] == User(id, email, h.hash(password, SaltRounds, salt))
    ensures Login(users, Some(email), Some(password), h, t)
              == Success(200, LoginReply(LoginSucceeded, t.sign(id), PublicUser(id, email)))
  {
  }

  /** Registering a fresh email and then logging in with it succeeds, and the
      login answers with the id the registration assigned. */
  method RegisterThenLogin(store: UserStore, t: Tokens, email: string, password: string, salt: nat)
    returns (registered: Response<RegisterReply>, loggedIn: Response<LoginReply>)
    requires store.Valid() && Sound(store.hasher)
    requires email != "" && password != "" && email !in store.users
    modifies store
    ensures store.Valid()
    ensures registered.Success? && loggedIn.Success?
    ensures loggedIn.value.user == registered.value.user
    ensures loggedIn.value.token == t.sign(registered.value.user.id)
  {
    registered := store.Register(Some(email), Some(password), salt);
    LoginAfterRegister(store.users, store.hasher, t, email, password, salt, registered.value.user.id);
    loggedIn := Login(store.users, Some(email), Some(password), store.hasher, t);
  }
}
