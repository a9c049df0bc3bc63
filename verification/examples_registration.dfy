/** The endpoint's test cases that do not depend on the password policy.
    Each is stated for every allow-list, store and services that fit the
    case's set-up; the validator is only assumed to accept the passwords
    the test expects to pass it. */
module RegistrationExamples {
  import opened Optional
  import opened UserStore
  import opened Registration

  const Url: string := "/api/users"

  /** A body without `email` is refused for the email, one without
      `password` for the password. */
  lemma MissingFieldCases<V>(allowed: set<string>, store: Store, svc: Services<V>)
    ensures Register(Request(None, Some("test password"), Url), allowed, store, svc).response
            == Reject(MissingMessage("email"))
    ensures Register(Request(Some("test@email.com"), None, Url), allowed, store, svc).response
            == Reject(MissingMessage("password"))
  {
  }

  /** A valid password for an email missing from the allow-list is refused. */
  lemma NotAllowedCase<V>(allowed: set<string>, store: Store, svc: Services<V>)
    requires svc.validatePassword("1Aa!2Bb@") == None
    requires "notAllowed@email.com" !in allowed
    ensures Register(Request(Some("notAllowed@email.com"), Some("1Aa!2Bb@"), Url), allowed, store, svc).response
            == Reject(NotAllowedMessage)
  {
  }

  /** The "already registered" test case. It only names that test: the
      seeded user's email and password come from test data outside this
      model, so they are parameters, and the statement is
      `Registration.AlreadyRegisteredRejected` at the test's URL. */
  lemma AlreadyRegisteredCase<V>(email: string, password: string, allowed: set<string>,
                                 store: Store, svc: Services<V>)
    requires svc.validatePassword(password) == None
    requires email in allowed && email in store.rows
    ensures Register(Request(Some(email), Some(password), Url), allowed, store, svc)
            == Step(Reject(AlreadyRegisteredMessage), store)
  {
  }

  /** An allowed email not yet in the (seeded) table, with a valid password,
      is created under the sequence's next id, and only that row is added. */
  lemma CreatedCase<V>(allowed: set<string>, store: Store, svc: Services<V>)
    requires svc.validatePassword("1Aa!2Bb@") == None
    requires "allowed@email.com" in allowed
    requires Valid(store) && "allowed@email.com" !in store.rows
    ensures var r := Register(Request(Some("allowed@email.com"), Some("1Aa!2Bb@"), Url), allowed, store, svc);
            && r.response.status == Created
            && r.response.location == Some(Location(Url, store.nextId))
            && r.store.rows == store.rows["allowed@email.com" :=
                 UserRow(store.nextId, "allowed@email.com", svc.hashPassword("1Aa!2Bb@"))]
  {
  }

  /** In a fresh table the same request gets id 1 and the Location `/api/users/1`. */
  lemma CreatedInFreshTable<V>(allowed: set<string>, svc: Services<V>)
    requires svc.validatePassword("1Aa!2Bb@") == None
    requires "allowed@email.com" in allowed
    ensures var r := Register(Request(Some("allowed@email.com"), Some("1Aa!2Bb@"), Url), allowed, Empty(), svc);
            && r.response.location == Some("/api/users/1")
            && r.store.rows == map["allowed@email.com" := UserRow(1, "allowed@email.com", svc.hashPassword("1Aa!2Bb@"))]
  {
    CreatedCase(allowed, Empty(), svc);
    assert Location(Url, 1) == "/api/users/1";
  }
}
