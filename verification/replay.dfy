/** The users table over the server's life: registration requests handled
    one after another, each seeing the store the previous one left. */
module Replay {
  import opened Optional
  import opened UserStore
  import opened Registration

  datatype Trace<V> = Trace(responses: seq<Response<V>>, store: Store)

  /** How many of the responses are 201 Created. */
  function CountCreated<V>(responses: seq<Response<V>>): (n: nat)
    decreases |responses|
  {
    if |responses| == 0 then 0
    else (if responses[0].status == Created then 1 else 0) + CountCreated(responses[1..])
  }

  /** Serves the requests in order. Each gets one response, no stored user is
      ever changed or removed, the store stays well formed, and the table
      grows by exactly one row per 201. */
  function Serve<V>(reqs: seq<Request>, allowed: set<string>, store: Store, svc: Services<V>): (t: Trace<V>)
    ensures |t.responses| == |reqs|
    ensures forall e :: e in store.rows ==> e in t.store.rows && t.store.rows[e] == store.rows[e]
    ensures |t.store.rows| == |store.rows| + CountCreated(t.responses)
    ensures Valid(store) ==> Valid(t.store)
    decreases |reqs|
  {
    if |reqs| == 0 then Trace([], store)
    else
      var first := Register(reqs[0], allowed, store, svc);
      var rest := Serve(reqs[1..], allowed, first.store, svc);
      var responses := [first.response] + rest.responses;
      assert responses[1..] == rest.responses;
      Trace(responses, rest.store)
  }

  /** Serving one more request appends exactly that request's own answer,
      computed on the store every earlier request left, and the store it
      leaves becomes the final one. By induction this fixes every response
      of a trace, not only how many there are. */
  lemma {:induction false} ServeAppend<V>(reqs: seq<Request>, q: Request, allowed: set<string>,
                                          store: Store, svc: Services<V>)
    ensures var t := Serve(reqs, allowed, store, svc);
            var last := Register(q, allowed, t.store, svc);
            Serve(reqs + [q], allowed, store, svc) == Trace(t.responses + [last.response], last.store)
    decreases |reqs|
  {
    if |reqs| == 0 {
      assert reqs + [q] == [q];
    } else {
      assert (reqs + [q])[1..] == reqs[1..] + [q];
      ServeAppend(reqs[1..], q, allowed, Register(reqs[0], allowed, store, svc).store, svc);
    }
  }

  /** Registering an email a second time is refused with
      `Email already registered`, whatever password the second request
      carries, and leaves the store as the first registration left it. */
  lemma SecondRegistrationRejected<V>(req1: Request, req2: Request, allowed: set<string>,
                                      store: Store, svc: Services<V>)
    requires Register(req1, allowed, store, svc).response.status == Created
    requires req2.email == req1.email && req2.password.Some?
    requires !IsPasswordError(svc.validatePassword(req2.password.value))
    ensures var after := Register(req1, allowed, store, svc).store;
            Register(req2, allowed, after, svc) == Step(Reject(AlreadyRegisteredMessage), after)
  {
  }
}
