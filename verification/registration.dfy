/** The `POST /` handler of the users router: presence check, password
    validation, allow-list check, duplicate check, hash, insert, 201. */
module Registration {
  import opened Optional
  import opened UserStore
  import Decimal

  /** The parsed JSON body's two fields (`None` is `null` or `undefined`)
      and the URL the request was addressed to. */
  datatype Request = Request(email: Option<string>, password: Option<string>, originalUrl: string)

  /** The users service's functions whose bodies are not part of this model:
      the password policy (an error text, or none), the hasher, and the
      projection of a stored row into the response body. */
  datatype Services<V> = Services(
    validatePassword: string -> Option<string>,
    hashPassword: string -> string,
    serializeUser: UserRow -> V)

  datatype Body<V> = ErrorJson(error: string) | UserJson(user: V)

  datatype Response<V> = Response(status: int, location: Option<string>, body: Body<V>)

  /** What the handler answers, and the store it leaves behind. */
  datatype Step<V> = Step(response: Response<V>, store: Store)

  const BadRequest: int := 400
  const Created: int := 201

  const NotAllowedMessage: string := "Email provided is not allowed to register"
  const AlreadyRegisteredMessage: string := "Email already registered"

  function MissingMessage(key: string): (message: string) {
    "Missing '" + key + "' in request body"
  }

  function Reject<V>(message: string): (r: Response<V>) {
    Response(BadRequest, None, ErrorJson(message))
  }

  /** The `Location` header of a created user: the request URL, a slash and the id. */
  function Location(url: string, id: nat): (location: string) {
    url + "/" + Decimal.FromNat(id)
  }

  /** The Location of a created user names exactly one id. */
  lemma LocationDeterminesId(url: string, a: nat, b: nat)
    ensures Location(url, a) == Location(url, b) ==> a == b
  {
    if Location(url, a) == Location(url, b) {
      var n := |url| + 1;
      assert Location(url, a)[n..] == Decimal.FromNat(a);
      assert Location(url, b)[n..] == Decimal.FromNat(b);
      Decimal.FromNatInjective(a, b);
    }
  }

  /** `if (passwordError)`: JavaScript truthiness of the validator's answer,
      so an empty error text lets the password through. */
  predicate IsPasswordError(answer: Option<string>) {
    answer.Some? && answer.value != ""
  }

  /** One stage of the pipeline: whether it lets the request through, and the
      400 message it answers with otherwise. */
  datatype Stage = Stage(passes: bool, error: string)

  /** Index of the first stage that does not pass, if any. */
  function FirstFailure(stages: seq<Stage>): (r: Option<nat>)
    ensures r.Some? ==> r.value < |stages| && !stages[r.value].passes
    ensures r.Some? ==> forall j :: 0 <= j < r.value ==> stages[j].passes
    ensures r.None? <==> forall j :: 0 <= j < |stages| ==> stages[j].passes
    decreases |stages|
  {
    if |stages| == 0 then None
    else if !stages[0].passes then Some(0)
    else
      match FirstFailure(stages[1..])
      case None => None
      case Some(k) => Some(k + 1)
  }

  /** The answer is determined: a failing stage preceded only by passing
      ones is the one reported. */
  lemma FirstFailureIs(stages: seq<Stage>, i: nat)
    requires i < |stages| && !stages[i].passes
    requires forall j :: 0 <= j < i ==> stages[j].passes
    ensures FirstFailure(stages) == Some(i)
  {
  }

  /** The presence loop over `{ email, password }`, in that key order:
      a field is present unless it is `null` or `undefined`. */
  function PresenceStages(req: Request): (stages: seq<Stage>) {
    [Stage(req.email.Some?, MissingMessage("email")),
     Stage(req.password.Some?, MissingMessage("password"))]
  }

  /** Every stage of the handler, in the order it runs them; the first one
      that fails decides the 400 answer, and a request passing all of them
      is registered. */
  function Stages(req: Request, allowed: set<string>, store: Store,
                  validatePassword: string -> Option<string>): (stages: seq<Stage>)
  {
    var email := req.email.GetOr("");
    var answer := validatePassword(req.password.GetOr(""));
    PresenceStages(req) +
    [Stage(!IsPasswordError(answer), answer.GetOr("")),
     Stage(email in allowed, NotAllowedMessage),
     Stage(email !in store.rows, AlreadyRegisteredMessage)]
  }

  /** The handler from line 18 on, once both fields are known to be present. */
  function RegisterFields<V>(email: string, password: string, url: string,
                             allowed: set<string>, store: Store, svc: Services<V>): (r: Step<V>)
  {
    var passwordError := svc.validatePassword(password);
    if IsPasswordError(passwordError) then Step(Reject(passwordError.value), store)
    else if email !in allowed then Step(Reject(NotAllowedMessage), store)
    else if email in store.rows then Step(Reject(AlreadyRegisteredMessage), store)
    else
      var inserted := Insert(store, email, svc.hashPassword(password));
      var location := Location(url, inserted.row.id);
      Step(Response(Created, Some(location), UserJson(svc.serializeUser(inserted.row))),
           inserted.store)
  }

  /** The whole handler. Every rejection is a 400 that leaves the store as it
      was; the only change to the store is the one insert of a 201, which adds
      the request's email with the hashed password under a fresh id and
      touches no other row. */
  function Register<V>(req: Request, allowed: set<string>, store: Store, svc: Services<V>): (r: Step<V>)
    ensures r.response.status == BadRequest || r.response.status == Created
    ensures r.response.status == BadRequest ==>
              r.store == store && r.response.location.None? && r.response.body.ErrorJson?
    ensures r.response.status == Created <==>
              && req.email.Some? && req.password.Some?
              && !IsPasswordError(svc.validatePassword(req.password.value))
              && req.email.value in allowed
              && req.email.value !in store.rows
    ensures r.response.status == Created ==>
              var email := req.email.value;
              && email in r.store.rows
              && r.store.rows[email].email == email
              && r.store.rows[email].password == svc.hashPassword(req.password.value)
              && (forall e :: e != email ==> (e in r.store.rows <==> e in store.rows))
              && (forall e :: e in store.rows ==> r.store.rows[e] == store.rows[e])
              && |r.store.rows| == |store.rows| + 1
              && r.response.location == Some(Location(req.originalUrl, r.store.rows[email].id))
              && r.response.body == UserJson(svc.serializeUser(r.store.rows[email]))
    ensures Valid(store) ==> Valid(r.store)
    ensures Valid(store) && r.response.status == Created ==>
              forall e :: e in store.rows ==> store.rows[e].id != r.store.rows[req.email.value].id
  {
    var presence := PresenceStages(req);
    match FirstFailure(presence)
    case Some(i) => Step(Reject(presence[i].error), store)
    case None =>
      assert presence[0].passes && presence[1].passes;
      RegisterFields(req.email.value, req.password.value, req.originalUrl, allowed, store, svc)
  }

  /** The handler agrees with the ordered stage list: the first failing stage
      gives the 400 message and leaves the store alone, and a request that
      fails no stage gets a 201. */
  lemma RegisterFollowsStages<V>(req: Request, allowed: set<string>, store: Store, svc: Services<V>)
    ensures var stages := Stages(req, allowed, store, svc.validatePassword);
            var r := Register(req, allowed, store, svc);
            match FirstFailure(stages)
            case Some(i) => r == Step(Reject(stages[i].error), store)
            case None => r.response.status == Created
  {
    var stages := Stages(req, allowed, store, svc.validatePassword);
    var r := Register(req, allowed, store, svc);
    if req.email.None? {
      FirstFailureIs(stages, 0);
    } else if req.password.None? {
      FirstFailureIs(stages, 1);
    } else {
      assert stages[0].passes && stages[1].passes;
      var answer := svc.validatePassword(req.password.value);
      if IsPasswordError(answer) {
        FirstFailureIs(stages, 2);
      } else if req.email.value !in allowed {
        FirstFailureIs(stages, 3);
      } else if req.email.value in store.rows {
        FirstFailureIs(stages, 4);
      } else {
        assert forall j :: 0 <= j < |stages| ==> stages[j].passes;
      }
    }
  }

  /** A missing email is reported first, whatever the password is. */
  lemma MissingEmailRejected<V>(req: Request, allowed: set<string>, store: Store, svc: Services<V>)
    requires req.email.None?
    ensures Register(req, allowed, store, svc) == Step(Reject(MissingMessage("email")), store)
  {
  }

  /** With the email present, a missing password is reported next. */
  lemma MissingPasswordRejected<V>(req: Request, allowed: set<string>, store: Store, svc: Services<V>)
    requires req.email.Some? && req.password.None?
    ensures Register(req, allowed, store, svc) == Step(Reject(MissingMessage("password")), store)
  {
    FirstFailureIs(PresenceStages(req), 1);
  }

  /** Presence means "not null": any two present fields, empty strings
      included, go on to password validation. This lemma unfolds `Register`
      past the presence loop; it exists to name the `== null` rule. */
  lemma PresentFieldsProceed<V>(req: Request, allowed: set<string>, store: Store, svc: Services<V>)
    requires req.email.Some? && req.password.Some?
    ensures Register(req, allowed, store, svc) ==
            RegisterFields(req.email.value, req.password.value, req.originalUrl, allowed, store, svc)
  {
  }

  /** The validator's error text comes back verbatim with a 400, and the
      store is untouched. */
  lemma PasswordErrorRejected<V>(req: Request, allowed: set<string>, store: Store, svc: Services<V>)
    requires req.email.Some? && req.password.Some?
    requires IsPasswordError(svc.validatePassword(req.password.value))
    ensures Register(req, allowed, store, svc) ==
            Step(Reject(svc.validatePassword(req.password.value).value), store)
  {
  }

  /** A password error is decided before any lookup: the answer does not
      depend on the allow-list or on the stored users. */
  lemma PasswordErrorIgnoresLookups<V>(req: Request, allowed1: set<string>, store1: Store,
                                       allowed2: set<string>, store2: Store, svc: Services<V>)
    requires req.email.Some? && req.password.Some?
    requires IsPasswordError(svc.validatePassword(req.password.value))
    ensures Register(req, allowed1, store1, svc).response == Register(req, allowed2, store2, svc).response
  {
  }

  /** An email off the allow-list is refused even when it is already registered. */
  lemma NotAllowedRejected<V>(req: Request, allowed: set<string>, store: Store, svc: Services<V>)
    requires req.email.Some? && req.password.Some?
    requires !IsPasswordError(svc.validatePassword(req.password.value))
    requires req.email.value !in allowed
    ensures Register(req, allowed, store, svc) == Step(Reject(NotAllowedMessage), store)
  {
  }

  /** The allow-list refusal does not reveal whether the email is registered:
      the answer is the same for any two stores. */
  lemma NotAllowedHidesRegistration<V>(req: Request, allowed: set<string>, store1: Store,
                                       store2: Store, svc: Services<V>)
    requires req.email.Some? && req.password.Some?
    requires !IsPasswordError(svc.validatePassword(req.password.value))
    requires req.email.value !in allowed
    ensures Register(req, allowed, store1, svc).response == Register(req, allowed, store2, svc).response
  {
  }

  /** An allowed email that is already stored is refused and nothing changes. */
  lemma AlreadyRegisteredRejected<V>(req: Request, allowed: set<string>, store: Store, svc: Services<V>)
    requires req.email.Some? && req.password.Some?
    requires !IsPasswordError(svc.validatePassword(req.password.value))
    requires req.email.value in allowed && req.email.value in store.rows
    ensures Register(req, allowed, store, svc) == Step(Reject(AlreadyRegisteredMessage), store)
  {
  }
}
