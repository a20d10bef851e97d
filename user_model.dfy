/** The account document and the rules the schema enforces when one is saved
    (backend/src/models/User.ts): setters that trim the name and lowercase and
    trim the email, length validators, a unique index on the email, and a
    pre-save hook that demands a password or a Google id. */
module UserModel {
  import opened Optional
  import opened Strings

  /** A stored account (`IUser`); `id` is the identifier storage assigns.
      The timestamps are not modelled. */
  datatype Account = Account(
    id: nat,
    name: string,
    email: string,
    password: Option<string>,
    googleId: Option<string>)

  /** The schema's length bounds (the request validators have their own,
      different ones). */
  const SchemaNameMinLength: nat := 2
  const SchemaNameMaxLength: nat := 50
  const SchemaPasswordMinLength: nat := 6

  const CredentialMissingMessage: string := "Either password or googleId must be provided"

  /** JavaScript truthiness of an optional string: present and non-empty. */
  predicate Truthy(f: Option<string>) {
    f.Some? && f.value != ""
  }

  /** The stored form of the fields the setters normalise: a trimmed name,
      a trimmed email without capitals. */
  predicate Normalised(a: Account) {
    Trimmed(a.name) && Trimmed(a.email) && NoUpper(a.email)
  }

  /** What the `lowercase` and `trim` setters of the `email` path make of a
      value: the stored form of an email, and also what a filter value on
      `email` is cast to before a lookup. */
  function EmailKey(email: string): (k: string)
    ensures Trimmed(k) && NoUpper(k)
  {
    TrimKeepsNoUpper(Lower(email));
    Trim(Lower(email))
  }

  /** `new User({...})`: the `trim` setter on the name and the `lowercase`
      and `trim` setters on the email apply on assignment. */
  function NewAccount(id: nat, name: string, email: string, password: Option<string>, googleId: Option<string>): (a: Account)
    ensures Normalised(a)
    ensures a.name == Trim(name)
    ensures a.id == id && a.email == EmailKey(email) && a.password == password && a.googleId == googleId
  {
    Account(id, Trim(name), EmailKey(email), password, googleId)
  }

  /** The setters are idempotent: an account already in stored form comes out
      of them unchanged. */
  lemma NewAccountOfNormalised(a: Account)
    requires Normalised(a)
    ensures NewAccount(a.id, a.name, a.email, a.password, a.googleId) == a
  {
    TrimOfTrimmed(a.name);
    LowerOfNoUpper(a.email);
    TrimOfTrimmed(a.email);
  }

  /** The field validators: `name` required with length 2 to 50, `email`
      required (non-empty), `password` of length at least 6 when set. */
  predicate SchemaValid(a: Account) {
    && SchemaNameMinLength <= |a.name| <= SchemaNameMaxLength
    && a.email != ""
    && (a.password.Some? ==> |a.password.value| >= SchemaPasswordMinLength)
  }

  /** The `pre('save')` hook: the error it passes to `next`, if any. */
  function PreSaveHook(a: Account): (r: Option<string>)
    ensures r.None? <==> Truthy(a.password) || Truthy(a.googleId)
    ensures r.Some? ==> r.value == CredentialMissingMessage
  {
    if !Truthy(a.password) && !Truthy(a.googleId) then Some(CredentialMissingMessage) else None
  }

  /** Why a `save()` is refused. */
  datatype SaveError = ValidationFailed | HookFailed(message: string) | DuplicateEmail

  /** `save()` of a new document into the collection: validators first, then
      the pre-save hook, then the unique index on `email`. */
  function SaveNew(accounts: seq<Account>, a: Account): (r: Option<SaveError>)
    ensures r == Some(ValidationFailed) <==> !SchemaValid(a)
    ensures r.Some? && r.value.HookFailed? ==> SchemaValid(a) && r.value.message == CredentialMissingMessage
    ensures r == Some(DuplicateEmail) ==> SchemaValid(a) && PreSaveHook(a).None? && FindByEmail(accounts, a.email).Some?
  {
    if !SchemaValid(a) then Some(ValidationFailed)
    else if PreSaveHook(a).Some? then Some(HookFailed(PreSaveHook(a).value))
    else if exists i | 0 <= i < |accounts| :: accounts[i].email == a.email then Some(DuplicateEmail)
    else None
  }

  /** What every stored account satisfies. */
  predicate WellFormed(a: Account) {
    Normalised(a) && SchemaValid(a) && PreSaveHook(a).None?
  }

  predicate UniqueEmails(accounts: seq<Account>) {
    forall i, j | 0 <= i < j < |accounts| :: accounts[i].email != accounts[j].email
  }

  /** The collection: well-formed accounts, identifiers given in insertion
      order, no two accounts with one email. Google ids are NOT required to be
      unique (the index is only `sparse`). */
  predicate StoreValid(accounts: seq<Account>) {
    && (forall i | 0 <= i < |accounts| :: accounts[i].id == i && WellFormed(accounts[i]))
    && UniqueEmails(accounts)
  }

  /** `findOne({ email: key })`: the first account, in insertion order,
      whose email is the key. */
  function FindByEmail(accounts: seq<Account>, key: string): (r: Option<nat>)
    ensures r.Some? ==> r.value < |accounts| && accounts[r.value].email == key
    ensures r.Some? ==> forall j | 0 <= j < r.value :: accounts[j].email != key
    ensures r.None? <==> forall i | 0 <= i < |accounts| :: accounts[i].email != key
  {
    if accounts == [] then None
    else if accounts[0].email == key then Some(0)
    else match FindByEmail(accounts[1..], key)
      case None => None
      case Some(i) => Some(i + 1)
  }

  /** The `$or` filter of the Google route: the email is the key, or the
      Google id is the given one. */
  predicate MatchesEmailOrGoogleId(a: Account, key: string, googleId: string) {
    a.email == key || a.googleId == Some(googleId)
  }

  /** `findOne({ $or: [{ email: key }, { googleId }] })`: the first matching
      account in insertion order. */
  function FindByEmailOrGoogleId(accounts: seq<Account>, key: string, googleId: string): (r: Option<nat>)
    ensures r.Some? ==> r.value < |accounts| && MatchesEmailOrGoogleId(accounts[r.value], key, googleId)
    ensures r.Some? ==> forall j | 0 <= j < r.value :: !MatchesEmailOrGoogleId(accounts[j], key, googleId)
    ensures r.None? <==> forall i | 0 <= i < |accounts| :: !MatchesEmailOrGoogleId(accounts[i], key, googleId)
  {
    if accounts == [] then None
    else if MatchesEmailOrGoogleId(accounts[0], key, googleId) then Some(0)
    else match FindByEmailOrGoogleId(accounts[1..], key, googleId)
      case None => None
      case Some(i) => Some(i + 1)
  }

  /** Lookups ignore case: an email and one that differs from it only in
      letters lowercased have the same key. */
  lemma EmailKeyIgnoresCase(e: string, f: string)
    requires |e| == |f|
    requires forall i | 0 <= i < |e| :: f[i] == e[i] || (IsUpper(e[i]) && f[i] as int == e[i] as int + 32)
    ensures EmailKey(e) == EmailKey(f)
  {
    assert Lower(e) == Lower(f) by {
      forall i | 0 <= i < |e| ensures Lower(e)[i] == Lower(f)[i] {
        if f[i] != e[i] { assert IsLower(f[i]); }
      }
    }
  }

  // ---------------------------------------------------------------------
  // The collection invariant

  /** A save that succeeds keeps the collection valid. */
  lemma SaveNewKeepsStoreValid(accounts: seq<Account>, a: Account)
    requires StoreValid(accounts)
    requires Normalised(a) && a.id == |accounts|
    requires SaveNew(accounts, a).None?
    ensures StoreValid(accounts + [a])
  {
    var after := accounts + [a];
    forall i | 0 <= i < |after|
      ensures after[i].id == i && WellFormed(after[i])
    {
      if i < |accounts| { assert after[i] == accounts[i]; }
    }
    forall i, j | 0 <= i < j < |after|
      ensures after[i].email != after[j].email
    {
      assert after[i] == accounts[i];
      if j < |accounts| { assert after[j] == accounts[j]; }
    }
  }

  /** A save of a new account is refused exactly when a validator, the hook
      or the unique email index refuses it. */
  lemma SaveNewRefusesExactly(accounts: seq<Account>, a: Account)
    ensures SaveNew(accounts, a).None? <==>
      SchemaValid(a) && (Truthy(a.password) || Truthy(a.googleId))
      && forall i | 0 <= i < |accounts| :: accounts[i].email != a.email
    ensures SchemaValid(a) && !Truthy(a.password) && !Truthy(a.googleId) ==>
      SaveNew(accounts, a) == Some(HookFailed(CredentialMissingMessage))
  {
  }

  /** Attaching a Google id to an account that has none keeps the collection
      valid: the hook still passes because such an account has a password.
      Nothing stops the id from being one another account already holds. */
  lemma LinkKeepsStoreValid(accounts: seq<Account>, i: nat, googleId: string)
    requires StoreValid(accounts) && i < |accounts|
    requires !Truthy(accounts[i].googleId)
    ensures Truthy(accounts[i].password)
    ensures PreSaveHook(accounts[i].(googleId := Some(googleId))).None?
    ensures StoreValid(accounts[i := accounts[i].(googleId := Some(googleId))])
  {
    var linked := accounts[i].(googleId := Some(googleId));
    var after := accounts[i := linked];
    assert WellFormed(accounts[i]);
    forall k | 0 <= k < |after|
      ensures after[k].id == k && WellFormed(after[k])
    {
      if k != i { assert after[k] == accounts[k]; }
    }
    forall k, j | 0 <= k < j < |after|
      ensures after[k].email != after[j].email
    {
      assert after[k].email == accounts[k].email && after[j].email == accounts[j].email;
    }
  }

  /** With unique emails the email lookup finds the one account with that
      email. */
  lemma FindByEmailInValidStore(accounts: seq<Account>, i: nat)
    requires UniqueEmails(accounts) && i < |accounts|
    ensures FindByEmail(accounts, accounts[i].email) == Some(i)
  {
  }

  /** A local account whose email is the key is what the Google lookup
      finds, as long as no account already holds the incoming Google id. */
  lemma EmailMatchFoundByGoogleLookup(accounts: seq<Account>, i: nat, googleId: string)
    requires UniqueEmails(accounts) && i < |accounts|
    requires forall j | 0 <= j < |accounts| :: accounts[j].googleId != Some(googleId)
    ensures FindByEmailOrGoogleId(accounts, accounts[i].email, googleId) == Some(i)
  {
  }

}
