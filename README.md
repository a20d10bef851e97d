# cursor-form identity core in Dafny

This project models the identity logic of the cursor-form application and
proves properties of it. The model covers four parts:

- the request validators that guard `/register` and `/login`;
- the `User` account document, with its schema setters, validators, unique
  email index and pre-save hook;
- the three authentication handlers (`/register`, `/login`, `/google`),
  running over an in-memory account collection;
- the client's `user` session slice with its five reducers.

Modules, one file each:

- `Optional` (`optional.dfy`): the `Option` datatype.
- `Strings` (`strings.dfy`): the JavaScript string operations the code
  relies on. These are `trim` and the `\s` class (the ECMAScript whitespace
  and line-terminator set) and `toLowerCase` (ASCII letters).
- `Validation` (`validation.dfy`): `validateRegistration` and
  `validateLogin` as pure functions from the request body to
  `Accept | Reject(reason)`. They are split into the source's three
  sections: name, email and password guards. `FirstViolation` is a
  reference semantics ("the first violated rule of a list"). The lemmas
  prove that the validators follow it.
- `UserModel` (`user_model.dfy`): the `Account` record, the setters
  (`NewAccount`), the validators (`SchemaValid`), the pre-save hook, a save
  of a new document (`SaveNew`), and the collection invariant
  `StoreValid`. `StoreValid` holds that identifiers follow insertion order,
  every account is well formed and emails are unique. The module also has
  the two lookups the handlers use.
- `AuthRoutes` (`auth_routes.dfy`): the class `AccountStore` holds
  `accounts: seq<Account>`. Its methods `Register`, `Login` and `Google`
  state how the collection changes and which reply comes back.
- `UserSlice` (`user_slice.dfy`): the class `UserState` holds the five
  fields, with one method per reducer. Its invariant says the user is
  authenticated exactly when `email` and `name` are set.

External collaborators become parameters:

- the bcrypt hash of the submitted password is `hashed`;
- `comparePassword` is `compare`;
- `generateToken` is `sign: nat -> string`;
- the outcome of Google's ID-token verification is a `Verification` value.

Storage identifiers are modelled as insertion indices. `findOne` returns
the first matching document in insertion order. A filter value on `email`
goes through the path's `lowercase` and `trim` setters, as Mongoose casts
query values (`UserModel.EmailKey`).

## Behaviour worth knowing

- The Google id is declared `sparse` but not `unique`. Two accounts may
  hold the same Google id (`UserModel.LinkKeepsStoreValid`).
- A matched account that already holds a different Google id is returned
  unchanged, and signs in.
- The 50-character name maximum is checked only by the schema, not by the
  validator. A longer name passes validation, and the save then fails with
  HTTP 500 (`AuthRoutes.AccountStore.RegisterLongName`).
- The stored email is trimmed as well as lowercased.
- The validator and the schema use different length bounds: the
  password minimum is 8 in the validator and 6 in the schema (where it
  applies to the stored hash).

## Model

| member | source | states |
|---|---|---|
| Strings.Lower | backend/src/models/User.ts:24 | lowercasing keeps the length, turns each capital into its lowercase letter (code point plus 32), changes no other character, and keeps whitespace where it was |
| Strings.TrimStartSpec | backend/src/middleware/validation.ts:11 | what is removed at the front is whitespace; what is kept is a suffix of the input that does not start with whitespace |
| Strings.TrimEndSpec | backend/src/middleware/validation.ts:11 | what is removed at the back is whitespace; what is kept is a prefix of the input that does not end with whitespace |
| Strings.Trim | backend/src/middleware/validation.ts:11-15 | `trim` is never longer than its input, neither starts nor ends with whitespace, and is empty exactly when the input is all whitespace; that what it removes is whitespace is `Strings.TrimIsInfix` |
| Strings.TrimIsInfix | backend/src/middleware/validation.ts:11 | what `trim` keeps is a contiguous piece of the input, and everything before and after that piece is whitespace |
| Strings.TrimIdempotent | backend/src/routes/auth.ts:29 | trimming an already trimmed name (the handler's `name.trim()` followed by the schema's `trim` setter) changes nothing |
| Strings.TrimOfTrimmed | backend/src/models/User.ts:16 | a string that neither starts nor ends with whitespace is its own trim |
| Strings.LowerOfNoUpper | backend/src/models/User.ts:24 | a string without capitals is its own lowercase |
| Strings.TrimKeepsNoUpper | backend/src/models/User.ts:24-25 | trimming a string without capitals leaves it without capitals |
| Strings.TrimLowerCommute | backend/src/models/User.ts:24-25 | the email's `lowercase` and `trim` setters commute, so their order does not matter |
| Strings.TrimOfPadded | backend/src/middleware/validation.ts:11-15 | any amounts of whitespace before and after a trimmed string are exactly what `trim` removes |
| Validation.RegistrationFollowsRuleOrder | backend/src/middleware/validation.ts:3-55 | `validateRegistration` answers with the first violated rule of the fixed list name-required, name-letters, name-length, email-required, email-shape, password-required, password-length, lowercase, uppercase, digit, special |
| Validation.NameRulesInOrder | backend/src/middleware/validation.ts:7-17 | the name guards run presence, letters-and-whitespace on the trimmed name, then trimmed length |
| Validation.EmailRulesInOrder | backend/src/middleware/validation.ts:20-27 | the email guards run presence, then the pattern |
| Validation.PasswordRulesInOrder | backend/src/middleware/validation.ts:30-52 | the password guards run presence, length 8, lowercase, uppercase, digit, special character |
| Validation.CheckName | backend/src/middleware/validation.ts:7-17 | the name guards answer only with a name rejection, and accept only a present name whose trim has at least 2 characters |
| Validation.CheckEmail | backend/src/middleware/validation.ts:20-27 | the email guards answer only with an email rejection, and accept only a present email of at least 5 characters that holds an `@` |
| Validation.CheckPassword | backend/src/middleware/validation.ts:30-52 | the password guards answer only with a password rejection, and accept only a present password of at least 8 characters |
| Validation.ValidateRegistration | backend/src/middleware/validation.ts:3-55 | a rejection names one of the eleven registration rules, and a rule the body does violate; the body is accepted exactly when the name, email and password guards all accept |
| Validation.ValidateLogin | backend/src/middleware/validation.ts:57-74 | a rejection names one of the three login rules, and a rule the body does violate; acceptance needs a present email and a present password |
| Validation.FirstViolation | backend/src/middleware/validation.ts:3-55 | the reference guard chain rejects only with a rule of its list that the body violates |
| Validation.LoginFollowsRuleOrder | backend/src/middleware/validation.ts:57-74 | `validateLogin` answers with the first violated rule of email-required, email-shape, password-required |
| Validation.FirstViolationAppend | backend/src/middleware/validation.ts:3-55 | a chain of guard lists is decided by the first list unless it accepts, then by the rest |
| Validation.FirstViolationAccepts | backend/src/middleware/validation.ts:54 | a guard chain accepts (calls `next()`) exactly when no rule of it is violated |
| Validation.FirstViolationRejects | backend/src/middleware/validation.ts:7-52 | a chain rejects with rule r exactly when r is violated and every rule before it holds: the first failure wins |
| Validation.RegistrationAcceptedExactly | backend/src/middleware/validation.ts:54 | registration is accepted exactly when the name, email and password satisfy every guard |
| Validation.NameCheckedBeforeEmailAndPassword | backend/src/middleware/validation.ts:7-27 | a failing name guard decides the answer with a name message, whatever the email and password are |
| Validation.EmailCheckedBeforePassword | backend/src/middleware/validation.ts:20-32 | with a good name, a failing email guard decides the answer, whatever the password is |
| Validation.WhitespaceNameIsNotLetters | backend/src/middleware/validation.ts:7-13 | a whitespace-only name is present but is refused with "Name should contain only letters and spaces" |
| Validation.OneLetterNameIsTooShort | backend/src/middleware/validation.ts:11-17 | one letter, with any whitespace before and after it, passes the letters test and is refused as too short |
| Validation.ShortPasswordFailsOnLength | backend/src/middleware/validation.ts:34-36 | behind a good name and email, a password shorter than 8 is refused for length before any character-class test |
| Validation.WeakPasswordExample | backend/src/middleware/validation.ts:34-48 | "Weak1" has a lowercase letter, an uppercase letter and a digit, yet is refused for its length |
| Validation.ExampleNamePasses | backend/src/middleware/validation.ts:7-17 | "Jo" passes the name guards |
| Validation.ExampleEmailPasses | backend/src/middleware/validation.ts:24-27 | "jo@x.com" passes the email guards |
| Validation.LoginAcceptedExactly | backend/src/middleware/validation.ts:57-74 | login is accepted exactly for a present, well-shaped email and any non-empty password |
| Validation.RegisteredCredentialsPassLogin | backend/src/middleware/validation.ts:3-74 | a body accepted by registration is accepted by login validation |
| Validation.EmailPatternCharacterization | backend/src/middleware/validation.ts:24-27 | the email pattern holds exactly for strings with no whitespace and exactly one `@`, which is not first and is followed by a domain with a `.` that has text on both sides |
| Validation.ValidEmailHasNoWhitespace | backend/src/middleware/validation.ts:24-27 | a valid email has no whitespace, so the email setters only lowercase it |
| UserModel.EmailKey | backend/src/models/User.ts:20-26 | the stored form of an email is trimmed and has no capitals |
| UserModel.NewAccount | backend/src/models/User.ts:12-34 | a new document is in stored form; its name is the given name trimmed, its email is the lookup key of the given email, and it carries the given id, password and Google id |
| UserModel.NewAccountOfNormalised | backend/src/models/User.ts:13-26 | the setters are idempotent: an account in stored form comes through them unchanged |
| UserModel.PreSaveHook | backend/src/models/User.ts:40-46 | the hook passes exactly when a password or a Google id is truthy, and otherwise fails with "Either password or googleId must be provided" |
| UserModel.SaveNew | backend/src/models/User.ts:12-46 | a save fails validation exactly when a schema validator refuses; the hook runs only after the validators pass; a duplicate email is reported only for an account that passes validators and hook and whose email the lookup finds |
| AuthRoutes.RegisteredSchemaValidExactly | backend/src/models/User.ts:13-30 | for a validated body and a hash of at least 6 characters, the schema validators accept the registered account exactly when its trimmed name has at most 50 characters |
| UserModel.EmailKeyIgnoresCase | backend/src/models/User.ts:20-26 | lowering any of an email's capitals leaves its lookup key unchanged (two emails that differ in case both ways meet through their all-lowercase form) |
| UserModel.SaveNewRefusesExactly | backend/src/models/User.ts:12-46 | a save succeeds exactly when the validators pass (name 2 to 50, email non-empty, password at least 6 when set), a password or a Google id is truthy, and no stored account has the email; when the validators pass and neither credential is truthy, the hook refuses with "Either password or googleId must be provided" |
| UserModel.SaveNewKeepsStoreValid | backend/src/models/User.ts:12-46 | a successful save of a new account keeps the collection valid: well-formed accounts, ids in insertion order, unique emails |
| UserModel.LinkKeepsStoreValid | backend/src/models/User.ts:31-46 | attaching any Google id, including one another account already holds, to an account without one keeps the collection valid; such an account has a password, so the hook still passes |
| UserModel.FindByEmail | backend/src/routes/auth.ts:16 | the lookup returns the first account whose email is the key, and nothing exactly when no account has it |
| UserModel.FindByEmailOrGoogleId | backend/src/routes/auth.ts:147-152 | the `$or` lookup returns the first account matching the email or the Google id, and nothing exactly when none matches |
| UserModel.FindByEmailInValidStore | backend/src/models/User.ts:20-26 | with unique emails, the email lookup finds the one account holding that email |
| UserModel.EmailMatchFoundByGoogleLookup | backend/src/routes/auth.ts:147-152 | a local account whose email matches is what the Google lookup returns when no account holds the incoming Google id, so no duplicate account is created |
| AuthRoutes.LinkIfMissing | backend/src/routes/auth.ts:154-159 | linking changes only the matched account, and only its Google id; an account with a truthy Google id keeps it, one without gets the incoming id |
| AuthRoutes.AccountStore.constructor | backend/src/models/User.ts:48 | the `User` collection starts empty, and the collection invariant holds |
| AuthRoutes.AccountStore.Register | backend/src/routes/auth.ts:11-56 | a validation failure answers 400 with its message; a taken email answers 400 "User with this email already exists"; a refused save answers 500 "Internal server error"; every failure leaves the collection unchanged; success appends exactly one account (trimmed name, lowercased email, the hash, no Google id) and answers 201 with its id, name, email and `sign(id)`; the collection stays valid |
| AuthRoutes.AccountStore.Login | backend/src/routes/auth.ts:59-109 | the collection is only read; a validation failure answers 400 with its message; an unknown email and a wrong password both answer "Invalid email or password"; an account without a password answers "Please sign in with Google" before any comparison; success answers 200 with that account's id, name, email and `sign(id)` |
| AuthRoutes.AccountStore.Google | backend/src/routes/auth.ts:112-190 | a missing token, a throwing verifier, a missing payload, or a payload without an email or a name are refused in that order and change nothing; a matched account gains the Google id only if it has none and is returned; otherwise one account with the payload's name, lowercased email, the Google id and no password is created, or the save failure answers 500 "Google authentication failed"; the collection stays valid |
| AuthRoutes.AccountStore.RegisterTwice | backend/src/routes/auth.ts:16-22 | after a successful registration the same body is refused with "User with this email already exists", and the collection is the old one plus the first registration's account |
| AuthRoutes.AccountStore.RegisterThenLogin | backend/src/routes/auth.ts:28-101 | a freshly registered account logs in with the same body when `comparePassword` accepts the password against its hash, and gets the same session (the same token only because `sign` depends on the id alone) |
| AuthRoutes.AccountStore.GoogleTwice | backend/src/routes/auth.ts:147-168 | repeating a successful Google sign-in with the same token answers the same reply (the same token only because `sign` depends on the id alone); afterwards the collection is the old one with the matched account linked if it had no Google id, or with the created account appended |
| AuthRoutes.AccountStore.RegisterLongName | backend/src/routes/auth.ts:34-55 | a body that passes validation with a trimmed name over 50 characters and an unused email ends in 500 "Internal server error" with nothing stored |
| AuthRoutes.LongNamePassesNameRules | backend/src/middleware/validation.ts:7-17 | a 51-letter name passes every name guard yet exceeds the schema maximum of 50 |
| AuthRoutes.StoredEmailIsKey | backend/src/routes/auth.ts:16-30 | for a validated body, the email the handler stores (lowercased) is the key the duplicate check looked up |
| AuthRoutes.RegisteredAccountIsAsSubmitted | backend/src/routes/auth.ts:28-32 | the document built from a validated body, after the setters, holds the trimmed name, the lowercased email and the hash |
| AuthRoutes.MatchedAccountIsStable | backend/src/routes/auth.ts:147-159 | after a match, the same lookup finds the same account, which still has the same id, name and email, and a second link changes nothing |
| AuthRoutes.CreatedAccountIsStable | backend/src/routes/auth.ts:160-168 | an account created because nothing matched is the first match next time, and linking it changes nothing |
| UserSlice.UserState.constructor | frontend/src/store/userSlice.ts:11-17 | the initial state has no email, name or error, and is neither authenticated nor loading; the invariant holds |
| UserSlice.UserState.SetUser | frontend/src/store/userSlice.ts:23-28 | sets email and name, authenticates and clears the error; loading is untouched; the invariant holds afterwards |
| UserSlice.UserState.SetLoading | frontend/src/store/userSlice.ts:29-31 | changes only the loading flag; the invariant is preserved |
| UserSlice.UserState.SetError | frontend/src/store/userSlice.ts:32-35 | sets the error and stops loading, nothing else; the invariant is preserved |
| UserSlice.UserState.ClearError | frontend/src/store/userSlice.ts:36-38 | clears only the error; the invariant is preserved |
| UserSlice.UserState.Logout | frontend/src/store/userSlice.ts:39-44 | forgets email and name, de-authenticates and clears the error, leaving loading alone; the invariant holds afterwards |
| UserSlice.UserState.Dispatch | frontend/src/store/userSlice.ts:19-46 | each action runs its reducer, and every action keeps the invariant |
| UserSlice.UserState.SetLoadingTwice | frontend/src/store/userSlice.ts:29-31 | `setLoading` is idempotent |
| UserSlice.UserState.ClearErrorTwice | frontend/src/store/userSlice.ts:36-38 | `clearError` is idempotent |
| UserSlice.UserState.LogoutTwice | frontend/src/store/userSlice.ts:39-44 | `logout` is idempotent |
| UserSlice.Run | frontend/src/store/userSlice.ts:11-49 | from the initial state, any sequence of actions keeps the invariant; after `logout` nobody is authenticated, and after `setUser` the given user is |

## Left out

- Hashing, comparison and tokens (backend/dist/utils/auth.js): bcrypt with cost 12, `bcrypt.compare`, and JWT signing with a 7-day expiry and verification are library calls. The model takes the hash, the comparison and the signing function as parameters. The only assumption about the comparison is the precondition of `RegisterThenLogin`.
- The token's issue time is not modelled: `sign` maps an id to a token and ignores the clock, while `jwt.sign` stamps `iat` and `exp`. Two replies for one account therefore carry equal tokens only in the model. The equal sessions stated by AuthRoutes.AccountStore.RegisterThenLogin and AuthRoutes.AccountStore.GoogleTwice hold in the source for the id, name and email, not for the token.
- Google's `verifyIdToken` is a network call. Its outcome is a parameter.
- AuthRoutes.AccountStore.Google: the token is either a string or absent. A truthy non-string token, which the handler would hand to the verifier, is not modelled.
- Validation.CheckName, Validation.CheckEmail and Validation.CheckPassword: a non-string body value is folded into `Absent`. This is exact for these guards, since `typeof x !== 'string'` draws the "required" message.
- Validation.CheckPassword: lengths count characters, not UTF-16 code units. A password containing characters outside the Basic Multilingual Plane is longer in JavaScript than here.
- UserModel.SchemaValid: the name bounds 2 to 50 and the password minimum 6 count characters, not UTF-16 code units. A name with characters outside the Basic Multilingual Plane is longer in JavaScript than here, so a Google name of one such character is stored by the source but refused (HTTP 500) by the model, and a name of 26 of them is the reverse. The same holds for Validation.CheckName's minimum of 2.
- Strings.Lower: `toLowerCase` is modelled on ASCII letters only. Unicode case mapping is not modelled.
- The catch-all HTTP 500 paths for storage, hashing or signing failures are not modelled. The 500 replies from a refused save are modelled. The save that links a Google id is not modelled as failing; `UserModel.LinkKeepsStoreValid` shows the linked account still satisfies every validator and the hook.
- Concurrency: two requests racing on the same email, and the read-then-write link, depend on storage atomicity and are not modelled. Each handler runs alone.
- Storage details are not modelled: ObjectIds (insertion indices here), the `createdAt`/`updatedAt` timestamps, and which document `findOne` returns when several match (the first in insertion order here).
- Express plumbing and `console.error` are not modelled. Replies keep only the status, the `success` flag (as `Success`/`Failure`), the message and the session.
- The compiled copies under backend/dist/routes and backend/dist/middleware are not part of this model.
- The frontend UI, the frontend yup validation schema and the API client are not part of this model.
