/** The three authentication handlers of backend/src/routes/auth.ts over an
    in-memory account collection: `/register`, `/login` and `/google`.
    Hashing, password comparison, token signing and Google's token
    verification are outside the model and arrive as parameters. */
module AuthRoutes {
  import opened Optional
  import opened Strings
  import opened Validation
  import opened UserModel

  /** The `user` and `token` members of a successful reply. */
  datatype Session = Session(id: nat, name: string, email: string, token: string)

  /** A reply: `success: true` with a session, or `success: false`. */
  datatype Response =
    | Success(status: nat, message: string, session: Session)
    | Failure(status: nat, message: string)

  /** The claims of a verified Google ID token that the handler reads. */
  datatype GooglePayload = GooglePayload(sub: string, email: Option<string>, name: Option<string>)

  /** What `verifyIdToken` followed by `getPayload` produced for the token:
      it threw, or it returned a ticket whose payload may be missing. */
  datatype Verification = Threw | Verified(payload: Option<GooglePayload>)

  const EmailTakenMessage: string := "User with this email already exists"
  const RegisteredMessage: string := "User registered successfully"
  const InternalErrorMessage: string := "Internal server error"
  const InvalidCredentialsMessage: string := "Invalid email or password"
  const UseGoogleMessage: string := "Please sign in with Google"
  const LoggedInMessage: string := "Login successful"
  const TokenRequiredMessage: string := "Google token is required"
  const InvalidGoogleTokenMessage: string := "Invalid Google token"
  const MissingGoogleInfoMessage: string := "Unable to get user information from Google"
  const GoogleSuccessMessage: string := "Google authentication successful"
  const GoogleFailedMessage: string := "Google authentication failed"

  /** The reply for an account: its id, name and email and a token signed
      over its id. */
  function SessionFor(a: Account, sign: nat -> string): (s: Session) {
    Session(a.id, a.name, a.email, sign(a.id))
  }

  /** A payload the handler goes on with: both `email` and `name` truthy. */
  predicate Usable(p: GooglePayload) {
    Truthy(p.email) && Truthy(p.name)
  }

  /** The email lookup key of a payload. */
  function GoogleKey(p: GooglePayload): (k: string)
    requires Usable(p)
  {
    EmailKey(p.email.value)
  }

  /** The account the Google handler creates when nothing matches: the
      payload's name and email through the setters, the subject as the
      Google id, and no password. */
  function GoogleAccount(id: nat, p: GooglePayload): (a: Account)
    requires Usable(p)
  {
    NewAccount(id, p.name.value, p.email.value, None, Some(p.sub))
  }

  /** The collection after a match: the Google id is attached only when the
      account has none. */
  function LinkIfMissing(accounts: seq<Account>, i: nat, googleId: string): (r: seq<Account>)
    requires i < |accounts|
    ensures |r| == |accounts| && forall j | 0 <= j < |accounts| && j != i :: r[j] == accounts[j]
    ensures r[i] == accounts[i].(googleId := r[i].googleId)
    ensures Truthy(accounts[i].googleId) ==> r[i].googleId == accounts[i].googleId
    ensures !Truthy(accounts[i].googleId) ==> r[i].googleId == Some(googleId)
  {
    if Truthy(accounts[i].googleId) then accounts
    else accounts[i := accounts[i].(googleId := Some(googleId))]
  }

  /** The `User` collection. */
  class AccountStore {
    var accounts: seq<Account>

    predicate Valid()
      reads this
    {
      StoreValid(accounts)
    }

    constructor ()
      ensures Valid() && accounts == []
    {
      accounts := [];
    }

    /** `POST /register`, behind `validateRegistration`. `hashed` is what
        `hashPassword` returns for the submitted password. */
    method Register(body: Body, hashed: string, sign: nat -> string) returns (res: Response)
      requires Valid()
      modifies this
      ensures Valid()
      ensures ValidateRegistration(body).Reject? ==>
        res == Failure(400, Message(ValidateRegistration(body).reason))
      ensures ValidateRegistration(body).Accept? && FindByEmail(old(accounts), EmailKey(TextOf(body.email))).Some? ==>
        res == Failure(400, EmailTakenMessage)
      ensures ValidateRegistration(body).Accept? && FindByEmail(old(accounts), EmailKey(TextOf(body.email))).None? ==>
        if SaveNew(old(accounts), Registered(|old(accounts)|, body, hashed)).Some? then res == Failure(500, InternalErrorMessage)
        else res.Success?
      ensures res.Failure? ==> accounts == old(accounts)
      ensures res.Success? ==>
        && accounts == old(accounts) + [Registered(|old(accounts)|, body, hashed)]
        && res == Success(201, RegisteredMessage, SessionFor(Registered(|old(accounts)|, body, hashed), sign))
    {
      var verdict := ValidateRegistration(body);
      if verdict.Reject? {
        return Failure(400, Message(verdict.reason));
      }
      var name, email := body.name.value, body.email.value;
      var existing := FindByEmail(accounts, EmailKey(email));
      if existing.Some? {
        return Failure(400, EmailTakenMessage);
      }
      var user := NewAccount(|accounts|, Trim(name), Lower(email), Some(hashed), None);
      RegisteredAccountIsAsSubmitted(body, hashed, |accounts|);
      if SaveNew(accounts, user).Some? {
        return Failure(500, InternalErrorMessage);
      }
      SaveNewKeepsStoreValid(accounts, user);
      accounts := accounts + [user];
      res := Success(201, RegisteredMessage, SessionFor(user, sign));
    }

    /** `POST /login`, behind `validateLogin`. `compare` stands for
        `comparePassword(plain, hash)`. The collection is only read. */
    method Login(body: Body, compare: (string, string) -> bool, sign: nat -> string) returns (res: Response)
      ensures ValidateLogin(body).Reject? ==> res == Failure(400, Message(ValidateLogin(body).reason))
      ensures ValidateLogin(body).Accept? ==>
        match FindByEmail(accounts, EmailKey(TextOf(body.email)))
        case None => res == Failure(400, InvalidCredentialsMessage)
        case Some(i) =>
          if !Truthy(accounts[i].password) then res == Failure(400, UseGoogleMessage)
          else if !compare(TextOf(body.password), accounts[i].password.value) then res == Failure(400, InvalidCredentialsMessage)
          else res == Success(200, LoggedInMessage, SessionFor(accounts[i], sign))
    {
      var verdict := ValidateLogin(body);
      if verdict.Reject? {
        return Failure(400, Message(verdict.reason));
      }
      var found := FindByEmail(accounts, EmailKey(body.email.value));
      if found.None? {
        return Failure(400, InvalidCredentialsMessage);
      }
      var user := accounts[found.value];
      if !Truthy(user.password) {
        return Failure(400, UseGoogleMessage);
      }
      if !compare(body.password.value, user.password.value) {
        return Failure(400, InvalidCredentialsMessage);
      }
      res := Success(200, LoggedInMessage, SessionFor(user, sign));
    }

    /** `POST /google`. `token` is the request's `token` member and
        `verification` what Google's verifier made of it. */
    method Google(token: Field, verification: Verification, sign: nat -> string) returns (res: Response)
      requires Valid()
      modifies this
      ensures Valid()
      ensures !Present(token) ==> res == Failure(400, TokenRequiredMessage)
      ensures Present(token) && verification == Threw ==> res == Failure(500, GoogleFailedMessage)
      ensures Present(token) && verification == Verified(None) ==> res == Failure(400, InvalidGoogleTokenMessage)
      ensures Present(token) && verification.Verified? && verification.payload.Some? && !Usable(verification.payload.value) ==>
        res == Failure(400, MissingGoogleInfoMessage)
      ensures res.Failure? ==> accounts == old(accounts)
      ensures res.Success? ==> Present(token) && verification.Verified? && verification.payload.Some? && Usable(verification.payload.value)
      ensures Present(token) && verification.Verified? && verification.payload.Some? && Usable(verification.payload.value) ==>
        var p := verification.payload.value;
        match FindByEmailOrGoogleId(old(accounts), GoogleKey(p), p.sub)
        case Some(i) =>
          res == Success(200, GoogleSuccessMessage, SessionFor(old(accounts)[i], sign))
          && accounts == LinkIfMissing(old(accounts), i, p.sub)
        case None =>
          if SaveNew(old(accounts), GoogleAccount(|old(accounts)|, p)).Some? then res == Failure(500, GoogleFailedMessage)
          else
            && res == Success(200, GoogleSuccessMessage, SessionFor(GoogleAccount(|old(accounts)|, p), sign))
            && accounts == old(accounts) + [GoogleAccount(|old(accounts)|, p)]
    {
      if !Present(token) {
        return Failure(400, TokenRequiredMessage);
      }
      if verification == Threw {
        return Failure(500, GoogleFailedMessage);
      }
      if verification.payload.None? {
        return Failure(400, InvalidGoogleTokenMessage);
      }
      var p := verification.payload.value;
      if !Truthy(p.email) || !Truthy(p.name) {
        return Failure(400, MissingGoogleInfoMessage);
      }
      var found := FindByEmailOrGoogleId(accounts, EmailKey(p.email.value), p.sub);
      assert EmailKey(p.email.value) == GoogleKey(p);
      var user: Account;
      if found.Some? {
        user := accounts[found.value];
        if !Truthy(user.googleId) {
          LinkKeepsStoreValid(accounts, found.value, p.sub);
          accounts := accounts[found.value := user.(googleId := Some(p.sub))];
        }
      } else {
        user := NewAccount(|accounts|, p.name.value, p.email.value, None, Some(p.sub));
        assert user == GoogleAccount(|accounts|, p);
        if SaveNew(accounts, user).Some? {
          return Failure(500, GoogleFailedMessage);
        }
        SaveNewKeepsStoreValid(accounts, user);
        accounts := accounts + [user];
      }
      res := Success(200, GoogleSuccessMessage, SessionFor(user, sign));
    }

    /** Registering the same email twice: once the first succeeds, the
        second is refused as a duplicate and stores nothing. */
    method RegisterTwice(body: Body, hashed: string, hashedAgain: string, sign: nat -> string) returns (first: Response, second: Response)
      requires Valid()
      modifies this
      ensures Valid()
      ensures first.Success? ==> second == Failure(400, EmailTakenMessage)
      ensures first.Success? ==> accounts == old(accounts) + [Registered(|old(accounts)|, body, hashed)]
    {
      first := Register(body, hashed, sign);
      if first.Success? {
        assert ValidateRegistration(body) == Accept;
        RegistrationAcceptedExactly(body);
        var key := EmailKey(TextOf(body.email));
        StoredEmailIsKey(body);
        assert accounts[|accounts| - 1].email == key;
        FindByEmailInValidStore(accounts, |accounts| - 1);
        assert FindByEmail(accounts, key).Some?;
      }
      ghost var between := accounts;
      second := Register(body, hashedAgain, sign);
      assert first.Success? ==> accounts == between;
    }

    /** A freshly registered account can log in with the same request body,
        as long as `comparePassword` accepts the password against the hash it
        was stored with, and the login reply is the registration's. */
    method RegisterThenLogin(body: Body, hashed: string, compare: (string, string) -> bool, sign: nat -> string)
      returns (registered: Response, loggedIn: Response)
      requires Valid()
      requires body.password.Str? && compare(body.password.value, hashed)
      modifies this
      ensures Valid()
      ensures registered.Success? ==> loggedIn == Success(200, LoggedInMessage, registered.session)
    {
      ghost var before := accounts;
      registered := Register(body, hashed, sign);
      if registered.Success? {
        assert ValidateRegistration(body) == Accept;
        RegisteredCredentialsPassLogin(body);
        var i := |before|;
        assert accounts[i] == Registered(i, body, hashed);
        StoredEmailIsKey(body);
        FindByEmailInValidStore(accounts, i);
        assert WellFormed(accounts[i]);
      }
      loggedIn := Login(body, compare, sign);
    }

    /** Repeating a successful Google sign-in with the same token and the
        same verification answers the same and changes nothing further: the
        account the first call found, linked or created is found again. */
    method GoogleTwice(token: Field, verification: Verification, sign: nat -> string)
      returns (first: Response, second: Response, ghost between: seq<Account>)
      requires Valid()
      modifies this
      ensures Valid()
      ensures first.Success? ==> second == first && accounts == between
      ensures first.Success? && verification.Verified? && verification.payload.Some? && Usable(verification.payload.value) ==>
        var p := verification.payload.value;
        match FindByEmailOrGoogleId(old(accounts), GoogleKey(p), p.sub)
        case Some(i) => accounts == LinkIfMissing(old(accounts), i, p.sub)
        case None => accounts == old(accounts) + [GoogleAccount(|old(accounts)|, p)]
    {
      ghost var before := accounts;
      first := Google(token, verification, sign);
      between := accounts;
      if !first.Success? {
        second := Google(token, verification, sign);
        return;
      }
      var p := verification.payload.value;
      var key := GoogleKey(p);
      ghost var j: nat;
      match FindByEmailOrGoogleId(before, key, p.sub) {
        case Some(i) =>
          MatchedAccountIsStable(before, key, p.sub, i);
          j := i;
          assert first == Success(200, GoogleSuccessMessage, SessionFor(between[j], sign));
        case None =>
          CreatedAccountIsStable(before, key, p.sub, GoogleAccount(|before|, p));
          j := |before|;
          assert first == Success(200, GoogleSuccessMessage, SessionFor(between[j], sign));
      }
      second := Google(token, verification, sign);
    }

    /** A name that passes validation can still be longer than the schema
        allows; such a registration reaches the save, which refuses it, and
        the client sees a 500 rather than a validation message. */
    method RegisterLongName(body: Body, hashed: string, sign: nat -> string) returns (res: Response)
      requires Valid()
      requires ValidateRegistration(body) == Accept && |Trim(TextOf(body.name))| > SchemaNameMaxLength
      requires FindByEmail(accounts, EmailKey(TextOf(body.email))).None?
      modifies this
      ensures res == Failure(500, InternalErrorMessage) && accounts == old(accounts)
    {
      res := Register(body, hashed, sign);
    }
  }

  /** A registered email is stored as its lookup key. */
  lemma StoredEmailIsKey(body: Body)
    requires ValidateRegistration(body) == Accept
    ensures Lower(TextOf(body.email)) == EmailKey(TextOf(body.email))
  {
    RegistrationAcceptedExactly(body);
    ValidEmailHasNoWhitespace(TextOf(body.email));
  }

  /** After a Google sign-in matched account `i`, the same lookup finds `i`
      again, the account shows the same id, name and email, and a second
      link changes nothing. */
  lemma MatchedAccountIsStable(accounts: seq<Account>, key: string, googleId: string, i: nat)
    requires FindByEmailOrGoogleId(accounts, key, googleId) == Some(i)
    ensures var after := LinkIfMissing(accounts, i, googleId);
      && FindByEmailOrGoogleId(after, key, googleId) == Some(i)
      && after[i].id == accounts[i].id && after[i].name == accounts[i].name && after[i].email == accounts[i].email
      && LinkIfMissing(after, i, googleId) == after
  {
    var after := LinkIfMissing(accounts, i, googleId);
    assert MatchesEmailOrGoogleId(after[i], key, googleId);
    assert forall j | 0 <= j < i :: after[j] == accounts[j];
    if !Truthy(after[i].googleId) {
      assert after[i := after[i].(googleId := Some(googleId))] == after;
    }
  }

  /** After a Google sign-in created an account, the same lookup finds it
      first, and linking it changes nothing. */
  lemma CreatedAccountIsStable(accounts: seq<Account>, key: string, googleId: string, a: Account)
    requires FindByEmailOrGoogleId(accounts, key, googleId).None?
    requires a.email == key && a.googleId == Some(googleId)
    ensures FindByEmailOrGoogleId(accounts + [a], key, googleId) == Some(|accounts|)
    ensures LinkIfMissing(accounts + [a], |accounts|, googleId) == accounts + [a]
  {
    var after := accounts + [a];
    assert MatchesEmailOrGoogleId(after[|accounts|], key, googleId);
    assert forall j | 0 <= j < |accounts| :: after[j] == accounts[j];
    if !Truthy(a.googleId) {
      assert after[|accounts| := a.(googleId := Some(googleId))] == after;
    }
  }

  /** A letter-only name of 51 characters passes every name rule of the
      validation middleware yet exceeds the schema's maximum of 50. */
  lemma LongNamePassesNameRules(b: Body)
    requires b.name == Str(seq(51, i => 'a'))
    ensures CheckName(b.name) == Accept
    ensures |Trim(b.name.value)| > SchemaNameMaxLength
  {
    var n := b.name.value;
    assert n[0] == 'a' && n[50] == 'a';
    TrimOfTrimmed(n);
    assert LettersOrWhitespace(n);
  }

  /** The account `/register` builds: the trimmed name, the lowercased
      email and the hash, with no Google id. */
  function Registered(id: nat, body: Body, hashed: string): (a: Account) {
    Account(id, Trim(TextOf(body.name)), Lower(TextOf(body.email)), Some(hashed), None)
  }

  /** The account a successful registration stores holds the trimmed name,
      the submitted email lowercased (a valid email has no whitespace for the
      setter to trim) and the hash. */
  lemma RegisteredAccountIsAsSubmitted(body: Body, hashed: string, id: nat)
    requires ValidateRegistration(body) == Accept
    ensures NewAccount(id, Trim(TextOf(body.name)), Lower(TextOf(body.email)), Some(hashed), None)
      == Registered(id, body, hashed)
  {
    RegistrationAcceptedExactly(body);
    TrimIdempotent(TextOf(body.name));
    ValidEmailHasNoWhitespace(TextOf(body.email));
    LowerIdempotent(TextOf(body.email));
  }


  /** For a validated body and a hash of at least six characters (bcrypt's
      are sixty), the schema's validators accept the account `/register`
      builds exactly when the trimmed name is at most 50 characters: the
      validator and the schema disagree only on that bound. */
  lemma RegisteredSchemaValidExactly(body: Body, hashed: string, id: nat)
    requires ValidateRegistration(body) == Accept && |hashed| >= SchemaPasswordMinLength
    ensures SchemaValid(Registered(id, body, hashed)) <==> |Trim(TextOf(body.name))| <= SchemaNameMaxLength
  {
    RegistrationAcceptedExactly(body);
  }

}
