# User registration pipeline of spm-server, in Dafny

This project models the `POST /` handler of the users router
(`src/users/users-router.js`), the one piece of the server that makes real
decisions. The handler checks, in this order:

1. that `email` and `password` are present;
2. that the users service's password validator has no complaint;
3. that the email is on the allow-list;
4. that no user with that email exists.

If all four pass, it hashes the password, inserts the user, and answers
201 with a `Location` header and the serialised user. Each failing check
stops the pipeline with its own 400 `{ error }` message.

The handler becomes one pure function, `Registration.Register`. It takes:

- the request: two optional strings plus the request URL;
- the allow-list, as a set of emails;
- the users table, as a `UserStore.Store`;
- the users-service functions whose code is not part of this model, as
  function-valued fields of `Services`.

It returns the response together with the store the handler leaves behind.

Modules:

- `Optional`: `Option`. `None` stands for JavaScript `null`/`undefined`.
- `Decimal`: the decimal text of an id, as the template literal `/${user.id}`
  writes it, with its inverse.
- `UserStore`: user rows keyed by email, plus the id sequence. `Valid` says
  every row sits under its own email and ids are unique. `Insert` is the
  insert of line 40.
- `Registration`: the request, response and services types, the messages,
  the handler, an independent ordered list of stages it must agree with, and
  one lemma per precedence rule.
- `Replay`: a sequence of requests served one after another.
- `RegistrationExamples`: the endpoint's test cases that do not depend on the
  password policy.

Modelling notes where the code decides:

- Presence is `value == null`. An empty string counts as present.
- The password check is `if (passwordError)`, which is JavaScript truthiness.
  A validator answer of `""` therefore lets the password through (see
  `IsPasswordError`). The code was followed here, not the reading
  "any non-null answer is an error".
- A duplicate insert that races past the duplicate check is not turned into
  `Email already registered` by this code. That error goes to `.catch(next)`
  at line 50, so it is left out below rather than mapped to a 400.

Assumption about code outside this model: of what `UsersService.insertUser`
returns, the handler reads `user.id` for the Location (line 44) and passes the
whole `user` to `serializeUser` for the body (line 45). The model assumes
that id comes from a sequence counter in the store, which starts at 1 in a
fresh table; each insert takes the counter's value and advances it. See the
`UserStore.Insert` line under "## Left out".

## Model

| member | source | states |
|---|---|---|
| Registration.Register | src/users/users-router.js:8-53 | Every answer is 400 or 201. Every 400 leaves the store unchanged, with no Location and an error body. A 201 happens exactly when both fields are present, the validator raises no error, the email is allow-listed and the email is not yet stored. On a 201 exactly one row is added: it holds the email and `hashPassword(password)`; in a well-formed store its id is one no other row has. No other row changes. The Location is the request URL plus `/id`, and the body is `serializeUser` of the new row. A well-formed store stays well formed. |
| Registration.FirstFailure | src/users/users-router.js:12-16 | Returns the index of the first stage that fails, with every earlier stage passing. Returns none exactly when every stage passes. |
| Registration.FirstFailureIs | src/users/users-router.js:12-16 | A failing stage preceded only by passing stages is the one reported. |
| Registration.RegisterFollowsStages | src/users/users-router.js:12-32 | The handler agrees with the ordered stages: email presence, password presence, validator, allow-list, duplicate. The first failing stage's message comes back as a 400 with the store unchanged. If no stage fails, the answer is 201. |
| Registration.MissingEmailRejected | src/users/users-router.js:9-16 | With `email` null or undefined, the answer is 400 `Missing 'email' in request body` and the store is unchanged, whatever the password is. |
| Registration.MissingPasswordRejected | src/users/users-router.js:12-16 | With the email present and `password` null or undefined, the answer is 400 `Missing 'password' in request body` and the store is unchanged. |
| Registration.PresentFieldsProceed | src/users/users-router.js:12-18 | Two present fields, empty strings included, always go on to password validation. |
| Registration.PasswordErrorRejected | src/users/users-router.js:18-20 | A validator error comes back verbatim as a 400 and the store is unchanged. |
| Registration.PasswordErrorIgnoresLookups | src/users/users-router.js:18-22 | When the validator rejects, the answer does not depend on the allow-list or on the stored users, because no lookup happens. |
| Registration.NotAllowedRejected | src/users/users-router.js:22-27 | A valid password for an email off the allow-list gets 400 `Email provided is not allowed to register`, even if the email is already registered. The store is unchanged. |
| Registration.NotAllowedHidesRegistration | src/users/users-router.js:22-29 | The allow-list refusal is the same for any two stores, so it does not reveal whether the email is registered. |
| Registration.AlreadyRegisteredRejected | src/users/users-router.js:29-32 | An allow-listed email with a valid password that is already stored gets 400 `Email already registered`. The store is unchanged. |
| Registration.LocationDeterminesId | src/users/users-router.js:44 | Two Locations built from the same request URL are equal only when the ids are equal. |
| UserStore.Insert | src/users/users-router.js:34-40 | The inserted row holds the given email and hashed password and sits under that email. It is the only key added, existing rows are unchanged, the table grows by one, and a well-formed store stays well formed. In a well-formed store the new id differs from every stored id. |
| Decimal.FromNat | src/users/users-router.js:44 | The id's text is nonempty and all digits. Zero is written `0`, and no other number starts with `0`. |
| Decimal.ToNatFromNat | src/users/users-router.js:44 | Reading the decimal text of an id gives back the id. |
| Decimal.FromNatInjective | src/users/users-router.js:44 | Distinct ids have distinct decimal texts. |
| Replay.Serve | src/users/users-router.js:8-53 | Serving requests in order gives one response per request. No stored user is changed or removed. A well-formed store stays well formed. The table grows by exactly the number of 201 answers. |
| Replay.ServeAppend | src/users/users-router.js:8-53 | Serving one more request appends exactly `Register`'s answer to that request, computed on the store the earlier requests left. The store it leaves is the final store. So each response in a trace is fixed, not only the count. |
| Replay.SecondRegistrationRejected | src/users/users-router.js:29-32 | After an email is registered, a second request with that email and a valid password gets 400 `Email already registered` and changes nothing, whatever that password is. |
| RegistrationExamples.MissingFieldCases | test/users-endpoint.spec.js:31-48 | The body without `email` is refused for `email`; the body without `password` is refused for `password`. |
| RegistrationExamples.NotAllowedCase | test/users-endpoint.spec.js:113-122 | `notAllowed@email.com`, with the email off the allow-list and an accepted password, is refused as not allowed to register. |
| RegistrationExamples.AlreadyRegisteredCase | test/users-endpoint.spec.js:124-129 | A seeded user whose email is allow-listed and stored, sending a password the validator accepts, is refused with `Email already registered` and the store is unchanged. |
| RegistrationExamples.CreatedCase | test/users-endpoint.spec.js:131-141 | In any well-formed store without `allowed@email.com`, that email, with the email on the allow-list and an accepted password, gets 201. The Location is `/api/users/` plus the sequence's next id. Exactly one row is added, holding that id, the email and the hashed password. |
| RegistrationExamples.CreatedInFreshTable | test/users-endpoint.spec.js:131-141 | In a fresh table the same request gets id 1 and Location `/api/users/1`, and its row is the only one. |

## Left out

- The password policy: `UsersService.validatePassword` lives in `src/users/users-service.js`, which is not part of this model. It is the abstract `Services.validatePassword`. The length, whitespace and complexity rules and their messages are not modelled, and neither are the test cases that exercise them (test/users-endpoint.spec.js:51-111).
- Password hashing: `hashPassword` is the abstract `Services.hashPassword`. The model makes no claim about hash verification or irreversibility. It is treated as one fixed function, so the per-call random salt of a bcrypt-style hasher is not modelled. No contract relies on two hashes of the same password being equal.
- `serializeUser`: the abstract `Services.serializeUser`. The shape of the response body (which fields, the `xss` filtering) is not modelled.
- `userAllowed` and `hasUserWithEmail` are modelled as exact-string membership in the allow-list set and the store's keys. Their queries are not part of this model, so database collation and case folding are not modelled.
- Express routing, the JSON body parser and `req.app.get('db')`: plumbing.
- Non-string JSON values for `email` or `password`, such as numbers or objects: the model's fields are optional strings.
- Asynchrony and concurrency: the race between two requests for the same email, and the insert failure it would cause, are not modelled.
- Store and hasher failures are not modelled. `.catch(next)` forwards them to the error handler: line 52 for the allow-list lookup, line 50 for the duplicate lookup, hashing and insert.
- Registration.Register: the Location is stated as the request URL plus `/` plus the id. The path normalisation done by `path.posix.join` is not modelled, e.g. collapsing a trailing slash of the URL. Neither is the percent-encoding that Express's `res.location` applies to the joined path.
- UserStore.Insert: `UsersService.insertUser` and the table schema are not part of this model. Insert is assumed to return exactly the inserted row (id, email, hashed password), which supplies both the Location id and the input of `serializeUser`, with an id drawn from a serial sequence that starts at 1 (so `Empty`, `Valid` and `CreatedInFreshTable` rest on this too). If the sequence lags behind seeded ids or overflows, the real insert fails and the error goes to `.catch(next)` at line 50; that path is not modelled.
- The make and color services and the location endpoint tests: single-table CRUD outside the registration handler.
