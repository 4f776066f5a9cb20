// What signing a request means for the ACME server of simulator-aws/acm_acme.go:
// over every run, nothing of an account's changes without a request its key
// signed, and a request that is signed and in order gets what it asks for.

module AcmeRequests {
  import opened Common
  import opened AcmeValidations
  import opened CertificateNames
  import opened AcmeServer

  /** The request is for a known endpoint and its own URL, with a nonce that was issued and admitted no request yet. */
  ghost predicate InTime(s: State, req: Request) {
    && req.Data? && req.endpoint in s.endpoints && req.jws.urlMatches
    && req.jws.nonce != "" && req.jws.nonce in s.issued && req.jws.nonce !in s.admitted
  }

  /** The request names a valid account of its endpoint, carries no key, and that account's key signed it. */
  ghost predicate SignedByAccount(s: State, req: Request, url: Url) {
    && InTime(s, req) && !req.body.NewAccount? && req.jws.kid == Some(url) && req.jws.jwk.None?
    && url in s.accounts && s.accounts[url].endpoint == req.endpoint && s.accounts[url].status == AccountValid
    && s.accounts[url].thumbprint in req.jws.signedBy
  }

  /** The request carries a key, names no account, and the key signed it; only two resources take such a request. */
  ghost predicate SignedByKey(s: State, req: Request, key: Thumbprint) {
    && InTime(s, req) && (req.body.NewAccount? || req.body.RevokeCertificate?)
    && req.jws.jwk == Some(key) && req.jws.kid.None? && key in req.jws.signedBy
  }

  lemma InTimeIsAccepted(s: State, letters: Letters, answers: Answers, req: Request)
    requires NoncesOk(s) && Possible(s, letters, answers, req) && req.Data?
    ensures NonceAccepted(WithNonce(s, req.newNonce), req.jws.nonce) <==>
      req.jws.nonce != "" && req.jws.nonce in s.issued && req.jws.nonce !in s.admitted
  {
    hide OrderApproval;
  }

  /** What a POST does is what its handler does for the caller, who is whoever signed. */
  lemma ServedAsSigned(s: State, letters: Letters, answers: Answers, req: Request)
    requires NoncesOk(s) && Possible(s, letters, answers, req) && req.Data?
    ensures
      var s2, s' := Admitted(s, req), Apply(s, letters, answers, req);
      && (forall url :: SignedByAccount(s, req, url) ==> s' == AfterBody(s2, letters.fold, req.endpoint, ByAccount(url), req.body))
      && (forall key :: SignedByKey(s, req, key) ==> s' == AfterBody(s2, letters.fold, req.endpoint, ByKey(key), req.body))
  {
    hide AfterBody, OrderApproval;
    InTimeIsAccepted(s, letters, answers, req);
  }

  /** The stores of accounts, bindings, orders, validations and certificates. */
  ghost predicate SameStores(s: State, s': State) {
    && s'.accounts == s.accounts && s'.bindings == s.bindings && s'.orders == s.orders
    && s'.validations == s.validations && s'.certificates == s.certificates && s'.endpoints == s.endpoints
  }

  /** The caller the server takes a request in time to have is one that signed it. */
  lemma CallersSigned(s: State, req: Request)
    requires req.Data? && req.endpoint in s.endpoints
    requires req.jws.nonce != "" && req.jws.nonce in s.issued && req.jws.nonce !in s.admitted
    ensures match Caller(Admitted(s, req), req)
      case Nobody => true
      case ByKey(key) => SignedByKey(s, req, key)
      case ByAccount(url) => SignedByAccount(s, req, url)
  {
  }

  /** A request nobody signed, or that comes with the wrong nonce or for another URL, changes no store. */
  lemma UnsignedChangesNothing(s: State, letters: Letters, answers: Answers, req: Request)
    requires NoncesOk(s) && Possible(s, letters, answers, req) && req.Data?
    requires (forall url :: !SignedByAccount(s, req, url)) && (forall key :: !SignedByKey(s, req, key))
    ensures SameStores(s, Apply(s, letters, answers, req))
  {
    hide AfterBody, OrderApproval, InTime;
    if req.endpoint in s.endpoints && NonceAccepted(WithNonce(s, req.newNonce), req.jws.nonce) {
      InTimeIsAccepted(s, letters, answers, req);
      CallersSigned(s, req);
      NobodyIsServed(Admitted(s, req), letters.fold, req.endpoint, req.body);
    }
  }

  // What a handler can change for its caller.

  lemma AccountBodyChanges(s: State, fold: Fold, endpoint: Arn, caller: Url, b: Body)
    requires caller in s.accounts
    ensures var s' := AfterBody(s, fold, endpoint, ByAccount(caller), b);
      && s'.accounts.Keys == s.accounts.Keys && s'.bindings == s.bindings
      && (forall url :: url in s.accounts && url != caller ==> s'.accounts[url] == s.accounts[url])
      && (s'.validations == s.validations || b.NewOrder?)
  {
    hide MatchesOrder, KeyTaken;
  }

  lemma AccountBodyOrders(s: State, fold: Fold, endpoint: Arn, caller: Url, b: Body)
    ensures var s' := AfterBody(s, fold, endpoint, ByAccount(caller), b);
      && s.orders.Keys <= s'.orders.Keys
      && (forall id :: id in s'.orders && (id !in s.orders || s'.orders[id] != s.orders[id]) ==> s'.orders[id].account == caller)
      && (s'.certificates == s.certificates ||
          (&& |s'.certificates| == |s.certificates| + 1 && s'.certificates[..|s.certificates|] == s.certificates
           && var c := s'.certificates[|s.certificates|];
              c.order in s.orders && s.orders[c.order].account == caller && s.orders[c.order].status == Ready))
  {
    hide MatchesOrder, KeyTaken;
  }

  lemma KeyBodyChanges(s: State, fold: Fold, endpoint: Arn, key: Thumbprint, b: Body)
    ensures var s' := AfterBody(s, fold, endpoint, ByKey(key), b);
      && s'.orders == s.orders && s'.validations == s.validations && s'.certificates == s.certificates && s'.endpoints == s.endpoints
      && (|| (s'.accounts == s.accounts && s'.bindings == s.bindings)
          || (&& b.NewAccount? && b.bindingOk && b.keyId != ""
              && var id := BindingId(endpoint, b.keyId);
                 && id in s.bindings && s.bindings[id] == Binding(None, false)
                 && s'.accounts == s.accounts[b.url := Account(endpoint, id, key, AccountValid)]
                 && s'.bindings == s.bindings[id := Binding(Some(b.url), false)]))
  {
    hide HasAccount;
  }

  /** A new account has the key that signed for it and the free binding the request proved it may use. */
  ghost predicate AppearsSigned(s: State, s': State, req: Request, url: Url) {
    && url in s'.accounts && SignedByKey(s, req, s'.accounts[url].thumbprint) && req.body.NewAccount? && req.body.url == url
    && s'.accounts[url].endpoint == req.endpoint && s'.accounts[url].status == AccountValid && req.body.bindingOk
    && var id := s'.accounts[url].binding;
       && id == BindingId(req.endpoint, req.body.keyId)
       && id in s.bindings && s.bindings[id] == Binding(None, false)
       && id in s'.bindings && s'.bindings[id] == Binding(Some(url), false)
  }

  ghost predicate IssuedSigned(s: State, s': State, req: Request) {
    && |s'.certificates| == |s.certificates| + 1 && s'.certificates[..|s.certificates|] == s.certificates
    && var id := s'.certificates[|s.certificates|].order;
       id in s.orders && s.orders[id].status == Ready && SignedByAccount(s, req, s.orders[id].account)
  }

  lemma SignedByAccountChanges(s: State, s': State, letters: Letters, req: Request, url: Url)
    requires SignedByAccount(s, req, url) && s' == AfterBody(Admitted(s, req), letters.fold, req.endpoint, ByAccount(url), req.body)
    ensures
      && (forall other :: other in s.accounts ==> other in s'.accounts && (s'.accounts[other] != s.accounts[other] ==> other == url))
      && (forall other :: other in s'.accounts ==> other in s.accounts)
      && (forall id :: id in s'.orders && (id !in s.orders || s'.orders[id] != s.orders[id]) ==> s'.orders[id].account == url)
      && (s'.certificates != s.certificates ==> IssuedSigned(s, s', req))
      && s'.bindings == s.bindings
  {
    hide AfterBody;
    AccountBodyChanges(Admitted(s, req), letters.fold, req.endpoint, url, req.body);
    AccountBodyOrders(Admitted(s, req), letters.fold, req.endpoint, url, req.body);
  }

  lemma SignedByKeyChanges(s: State, s': State, letters: Letters, req: Request, key: Thumbprint)
    requires SignedByKey(s, req, key) && s' == AfterBody(Admitted(s, req), letters.fold, req.endpoint, ByKey(key), req.body)
    requires req.body.NewAccount? ==> req.body.url !in s.accounts
    ensures s'.orders == s.orders && s'.validations == s.validations && s'.certificates == s.certificates
    ensures forall other :: other in s.accounts ==> other in s'.accounts && s'.accounts[other] == s.accounts[other]
    ensures forall other :: other in s'.accounts && other !in s.accounts ==> AppearsSigned(s, s', req, other)
  {
    hide AfterBody;
    KeyBodyChanges(Admitted(s, req), letters.fold, req.endpoint, key, req.body);
  }

  lemma NewUrlIsFresh(s: State, letters: Letters, answers: Answers, req: Request)
    requires Possible(s, letters, answers, req) && req.Data? && req.body.NewAccount?
    ensures req.body.url !in s.accounts
  {
  }

  /**
   * Over every run, what one POST changes was signed for: an account and its
   * orders change only under that account's own key, a certificate is issued
   * only to the account that has the ready order, and an account appears only
   * under the key it gets, for a binding that was free.
   */
  lemma ChangesAreSignedFor(states: seq<State>, letters: Letters, answers: seq<Answers>, requests: seq<Request>, n: nat)
    requires Run(states, letters, answers, requests) && n < |requests| && requests[n].Data?
    ensures var s, s', req := states[n], states[n + 1], requests[n];
      && (forall url :: url in s.accounts ==> url in s'.accounts && (s'.accounts[url] != s.accounts[url] ==> SignedByAccount(s, req, url)))
      && (forall url :: url in s'.accounts && url !in s.accounts ==> AppearsSigned(s, s', req, url))
      && (forall id :: id in s'.orders && (id !in s.orders || s'.orders[id] != s.orders[id]) ==> SignedByAccount(s, req, s'.orders[id].account))
      && (s'.certificates != s.certificates ==> IssuedSigned(s, s', req))
      && (s'.bindings != s.bindings ==> exists key :: SignedByKey(s, req, key))
      && (s'.validations != s.validations ==> exists url :: SignedByAccount(s, req, url))
  {
    hide Possible, AfterBody, InTime, Apply;
    var s, req := states[n], requests[n];
    RunKeepsInv(states, letters, answers, requests, n);
    ServedAsSigned(s, letters, answers[n], req);
    if url :| SignedByAccount(s, req, url) {
      SignedByAccountChanges(s, states[n + 1], letters, req, url);
    } else if key :| SignedByKey(s, req, key) {
      if req.body.NewAccount? {
        NewUrlIsFresh(s, letters, answers[n], req);
      }
      SignedByKeyChanges(s, states[n + 1], letters, req, key);
    } else {
      UnsignedChangesNothing(s, letters, answers[n], req);
    }
  }

  // What a signed request achieves.

  /** The request asks for an account for a key that has none in the endpoint, and proves it may use a free binding. */
  ghost predicate AsksForAccount(s: State, req: Request, key: Thumbprint) {
    && SignedByKey(s, req, key)
    && req.body.NewAccount? && !req.body.onlyReturnExisting && req.body.contactOk && req.body.bindingOk && req.body.keyId != ""
    && BindingId(req.endpoint, req.body.keyId) in s.bindings && s.bindings[BindingId(req.endpoint, req.body.keyId)] == Binding(None, false)
    && forall url :: url in s.accounts && s.accounts[url].endpoint == req.endpoint ==> s.accounts[url].thumbprint != key
  }

  lemma SignedNewAccountIsMade(s: State, letters: Letters, answers: Answers, req: Request, key: Thumbprint)
    requires NoncesOk(s) && Possible(s, letters, answers, req) && req.Data? && req.body.NewAccount? && AsksForAccount(s, req, key)
    ensures var s', id := Apply(s, letters, answers, req), BindingId(req.endpoint, req.body.keyId);
      && s'.accounts == s.accounts[req.body.url := Account(req.endpoint, id, key, AccountValid)]
      && id in s.bindings && s'.bindings == s.bindings[id := Binding(Some(req.body.url), false)]
      && s'.orders == s.orders && s'.validations == s.validations && s'.certificates == s.certificates
  {
    hide Apply, Possible;
    ServedAsSigned(s, letters, answers, req);
  }

  /** The request asks for an order of names that are all covered. */
  ghost predicate AsksForCoveredOrder(s: State, letters: Letters, answers: Answers, req: Request) {
    && req.Data? && req.body.NewOrder? && req.body.identifiers != []
    && forall i :: 0 <= i < |req.body.identifiers| ==> Approvable(s.validations, req.endpoint, req.body.identifiers[i], letters.lower, answers)
  }

  lemma SignedOrderIsMade(s: State, letters: Letters, answers: Answers, req: Request, url: Url)
    requires NoncesOk(s) && Possible(s, letters, answers, req) && SignedByAccount(s, req, url)
    requires req.body.NewOrder? && AsksForCoveredOrder(s, letters, answers, req)
    ensures var s' := Apply(s, letters, answers, req);
      && s'.orders == s.orders[req.body.id := Order(req.endpoint, url, Ready, req.body.identifiers)]
      && s'.accounts == s.accounts && s'.bindings == s.bindings && s'.certificates == s.certificates
  {
    hide Apply, Approvable, NoncesOk, IsApproval, OnlyReconciled;
    ServedAsSigned(s, letters, answers, req);
  }

  /** An account that finalizes its ready order with a request for the order's names gets its certificate. */
  lemma SignedFinalizeIssues(s: State, letters: Letters, answers: Answers, req: Request, url: Url)
    requires NoncesOk(s) && Possible(s, letters, answers, req) && SignedByAccount(s, req, url)
    requires req.body.Finalize? && req.body.csrOk && req.body.order in s.orders
    requires var order := s.orders[req.body.order];
      order == Order(req.endpoint, url, Ready, order.identifiers) && MatchesOrder(req.body.csr, order.identifiers, letters.fold)
    ensures var s', order := Apply(s, letters, answers, req), s.orders[req.body.order];
      && s'.certificates == s.certificates + [Certificate(req.body.order, req.body.csr, order.identifiers)]
      && s'.orders == s.orders[req.body.order := order.(status := Finished)]
      && s'.accounts == s.accounts && s'.bindings == s.bindings && s'.validations == s.validations
  {
    hide Apply, Possible, MatchesOrder;
    ServedAsSigned(s, letters, answers, req);
  }

  /** An account that proves a key no other account of the endpoint has gets it, and its old key signs for it no longer. */
  lemma SignedKeyChangeTakesEffect(s: State, letters: Letters, answers: Answers, req: Request, url: Url)
    requires NoncesOk(s) && Possible(s, letters, answers, req) && SignedByAccount(s, req, url) && req.body.KeyChange? && req.body.innerOk
    requires forall other :: other in s.accounts && other != url && s.accounts[other].endpoint == req.endpoint ==>
      s.accounts[other].thumbprint != req.body.thumbprint
    ensures var s' := Apply(s, letters, answers, req);
      && s'.accounts == s.accounts[url := s.accounts[url].(thumbprint := req.body.thumbprint)]
      && forall later: Request :: SignedByAccount(s', later, url) ==> req.body.thumbprint in later.jws.signedBy
  {
    hide Apply, Possible;
    ServedAsSigned(s, letters, answers, req);
  }

  /** An account that deactivates itself is closed, which over a run it stays. */
  lemma SignedDeactivationCloses(s: State, letters: Letters, answers: Answers, req: Request, url: Url)
    requires NoncesOk(s) && Possible(s, letters, answers, req) && SignedByAccount(s, req, url) && req.body == UpdateAccount(true)
    ensures Apply(s, letters, answers, req).accounts == s.accounts[url := s.accounts[url].(status := Deactivated)]
    ensures forall later: Request :: !SignedByAccount(Apply(s, letters, answers, req), later, url)
  {
    hide Apply, Possible;
    ServedAsSigned(s, letters, answers, req);
  }

  /** The client's request in time, signed with the key for the account. */
  ghost predicate Signs(s: State, req: Request, endpoint: Arn, key: Thumbprint, url: Url) {
    InTime(s, req) && req.endpoint == endpoint && req.jws.kid == Some(url) && req.jws.jwk.None? && key in req.jws.signedBy
  }

  lemma SignsForItself(s: State, req: Request, endpoint: Arn, key: Thumbprint, url: Url)
    requires Signs(s, req, endpoint, key, url) && !req.body.NewAccount?
    requires url in s.accounts && s.accounts[url].endpoint == endpoint && s.accounts[url].thumbprint == key && s.accounts[url].status == AccountValid
    ensures SignedByAccount(s, req, url)
  {
  }

  lemma AClientGetsItsOrder(states: seq<State>, letters: Letters, answers: seq<Answers>, requests: seq<Request>, n: nat, key: Thumbprint)
    requires Run(states, letters, answers, requests) && n + 2 <= |requests|
    requires requests[n].Data? && requests[n].body.NewAccount? && AsksForAccount(states[n], requests[n], key)
    requires requests[n + 1].Data? && requests[n + 1].body.NewOrder? && AsksForCoveredOrder(states[n + 1], letters, answers[n + 1], requests[n + 1])
    requires Signs(states[n + 1], requests[n + 1], requests[n].endpoint, key, requests[n].body.url)
    ensures var endpoint, url, id, identifiers := requests[n].endpoint, requests[n].body.url, requests[n + 1].body.id, requests[n + 1].body.identifiers;
      && states[n + 2].certificates == states[n].certificates
      && states[n + 2].orders == states[n].orders[id := Order(endpoint, url, Ready, identifiers)]
      && states[n + 2].accounts == states[n].accounts[url := Account(endpoint, BindingId(endpoint, requests[n].body.keyId), key, AccountValid)]
  {
    hide Possible, Apply, AsksForAccount, AsksForCoveredOrder, SignedByAccount, InTime;
    var endpoint, url := requests[n].endpoint, requests[n].body.url;
    RunKeepsInv(states, letters, answers, requests, n);
    SignedNewAccountIsMade(states[n], letters, answers[n], requests[n], key);
    RunKeepsInv(states, letters, answers, requests, n + 1);
    SignsForItself(states[n + 1], requests[n + 1], endpoint, key, url);
    SignedOrderIsMade(states[n + 1], letters, answers[n + 1], requests[n + 1], url);
  }

  /**
   * A client with a key of its own and a free binding gets, on every run, what
   * it came for: its account, then an order for names that are covered, then
   * the one certificate of that order.
   */
  lemma AnAuthorizedClientGetsItsCertificate(states: seq<State>, letters: Letters, answers: seq<Answers>, requests: seq<Request>, n: nat, key: Thumbprint)
    requires Run(states, letters, answers, requests) && n + 3 <= |requests|
    requires requests[n].Data? && requests[n].body.NewAccount? && AsksForAccount(states[n], requests[n], key)
    requires requests[n + 1].Data? && requests[n + 1].body.NewOrder? && AsksForCoveredOrder(states[n + 1], letters, answers[n + 1], requests[n + 1])
    requires Signs(states[n + 1], requests[n + 1], requests[n].endpoint, key, requests[n].body.url)
    requires Signs(states[n + 2], requests[n + 2], requests[n].endpoint, key, requests[n].body.url)
    requires requests[n + 2].Data? && requests[n + 2].body.Finalize? && requests[n + 2].body.csrOk && requests[n + 2].body.order == requests[n + 1].body.id
    requires MatchesOrder(requests[n + 2].body.csr, requests[n + 1].body.identifiers, letters.fold)
    ensures var endpoint, url, id, identifiers := requests[n].endpoint, requests[n].body.url, requests[n + 1].body.id, requests[n + 1].body.identifiers;
      && states[n + 3].certificates == states[n].certificates + [Certificate(id, requests[n + 2].body.csr, identifiers)]
      && states[n + 3].orders == states[n].orders[id := Order(endpoint, url, Finished, identifiers)]
      && states[n + 3].accounts == states[n].accounts[url := Account(endpoint, BindingId(endpoint, requests[n].body.keyId), key, AccountValid)]
  {
    hide Possible, Apply, AsksForAccount, AsksForCoveredOrder, SignedByAccount, MatchesOrder, InTime;
    AClientGetsItsOrder(states, letters, answers, requests, n, key);
    RunKeepsInv(states, letters, answers, requests, n + 2);
    SignsForItself(states[n + 2], requests[n + 2], requests[n].endpoint, key, requests[n].body.url);
    SignedFinalizeIssues(states[n + 2], letters, answers[n + 2], requests[n + 2], requests[n].body.url);
  }

  // What an administrator revokes.

  /** The binding was created once and can make no account any more. */
  ghost predicate Spent(s: State, id: BindingId) {
    id in s.createdBindings && (id in s.bindings ==> s.bindings[id].revoked)
  }

  lemma RevokingSpends(s: State, letters: Letters, answers: Answers, id: BindingId)
    requires BindingsOk(s) && id in s.bindings
    ensures Spent(Apply(s, letters, answers, RevokeBinding(id)), id)
    ensures Apply(s, letters, answers, RevokeBinding(id)).accounts == s.accounts
  {
  }

  lemma SpentAfterBody(s: State, fold: Fold, endpoint: Arn, signer: Signer, b: Body, id: BindingId, url: Url)
    requires Spent(s, id)
    ensures var s' := AfterBody(s, fold, endpoint, signer, b);
      Spent(s', id) && (url in s'.accounts && s'.accounts[url].binding == id ==> url in s.accounts && s.accounts[url].binding == id)
  {
    hide HasAccount, KeyTaken, MatchesOrder;
  }

  lemma SpentStays(s: State, letters: Letters, answers: Answers, req: Request, id: BindingId, url: Url)
    requires Spent(s, id) && Possible(s, letters, answers, req)
    ensures var s' := Apply(s, letters, answers, req);
      Spent(s', id) && (url in s'.accounts && s'.accounts[url].binding == id ==> url in s.accounts && s.accounts[url].binding == id)
  {
    hide AfterBody, SignerOf, OrderApproval, ValidationsAfter;
    if req.Data? {
      SpentAfterBody(Admitted(s, req), letters.fold, req.endpoint, Caller(Admitted(s, req), req), req.body, id, url);
    }
  }

  lemma {:induction false} SpentMakesNoAccount(states: seq<State>, letters: Letters, answers: seq<Answers>, requests: seq<Request>,
                                               m: nat, n: nat, id: BindingId, url: Url)
    requires Run(states, letters, answers, requests) && m <= n < |states| && Spent(states[m], id)
    ensures Spent(states[n], id)
    ensures url in states[n].accounts && states[n].accounts[url].binding == id ==> url in states[m].accounts && states[m].accounts[url].binding == id
    decreases n
  {
    hide Possible, Apply, Spent;
    if n > m {
      SpentMakesNoAccount(states, letters, answers, requests, m, n - 1, id, url);
      SpentStays(states[n - 1], letters, answers[n - 1], requests[n - 1], id, url);
    }
  }

  /** After a binding is revoked, on every run, no account appears with it, even if it is deleted afterwards. */
  lemma ARevokedBindingMakesNoAccount(states: seq<State>, letters: Letters, answers: seq<Answers>, requests: seq<Request>,
                                      m: nat, n: nat, id: BindingId, url: Url)
    requires Run(states, letters, answers, requests) && m < n < |states| && requests[m] == RevokeBinding(id) && id in states[m].bindings
    requires url in states[n].accounts && states[n].accounts[url].binding == id
    ensures url in states[m].accounts && states[m].accounts[url].binding == id
  {
    hide Possible, Apply, Spent;
    RunKeepsInv(states, letters, answers, requests, m);
    RevokingSpends(states[m], letters, answers[m], id);
    SpentMakesNoAccount(states, letters, answers, requests, m + 1, n, id, url);
  }

  lemma RevokingCloses(s: State, letters: Letters, answers: Answers, endpoint: Arn, url: Url)
    requires url in s.accounts && s.accounts[url].endpoint == endpoint
    ensures var s' := Apply(s, letters, answers, RevokeAccount(endpoint, url)); url in s'.accounts && s'.accounts[url].status != AccountValid
  {
  }

  /** After an account is revoked, on every run, no request is ever signed by it again. */
  lemma ARevokedAccountSignsNothing(states: seq<State>, letters: Letters, answers: seq<Answers>, requests: seq<Request>,
                                    m: nat, n: nat, endpoint: Arn, url: Url)
    requires Run(states, letters, answers, requests) && m < n < |requests| && requests[m] == RevokeAccount(endpoint, url)
    requires url in states[m].accounts && states[m].accounts[url].endpoint == endpoint
    ensures !SignedByAccount(states[n], requests[n], url)
  {
    hide Possible, Apply;
    RevokingCloses(states[m], letters, answers[m], endpoint, url);
    ClosedAccountsStayClosed(states, letters, answers, requests, m + 1, n, url);
  }

  /** A validation whose scope is changed approves nothing until its DNS record answers again, and a deleted one is gone. */
  lemma AnUpdatedValidationMustAnswerAgain(s: State, letters: Letters, answers: Answers, arn: Arn, scope: Scope,
                                           endpoint: Arn, name: string, later: Answers)
    requires arn in s.validations
    ensures var rows := Apply(s, letters, answers, UpdateValidation(arn, scope)).validations;
      && rows.Keys == s.validations.Keys && (forall other :: other in rows && other != arn ==> rows[other] == s.validations[other])
      && rows[arn].scope == Some(scope) && rows[arn].endpoint == s.validations[arn].endpoint && rows[arn].domain == s.validations[arn].domain
      && (Approves(rows[arn], endpoint, name, letters.lower, later) ==> later(rows[arn]))
    ensures Apply(s, letters, answers, DeleteValidation(arn)).validations == s.validations - {arn}
  {
    hide AfterBody, SignerOf, Covers;
  }

  /** An endpoint is deleted exactly when no validation and no binding that is not revoked belongs to it, and then serves nobody. */
  lemma AnEndpointGoesExactlyWhen(s: State, letters: Letters, answers: Answers, endpoint: Arn, req: Request)
    requires endpoint in s.endpoints
    ensures var s' := Apply(s, letters, answers, DeleteEndpoint(endpoint));
      && (endpoint !in s'.endpoints <==>
            && (forall arn :: arn in s.validations ==> s.validations[arn].endpoint != endpoint)
            && (forall id :: id in s.bindings && id.endpoint == endpoint ==> s.bindings[id].revoked))
      && (endpoint !in s'.endpoints && req.Data? && req.endpoint == endpoint ==> Apply(s', letters, answers, req) == s')
  {
    hide AfterBody, SignerOf, ValidationsAfter;
  }

  // From an empty server to a first certificate.

  /** A client's endpoint, binding, key and account, the domain it wants a certificate for, its validation and its order. */
  datatype Client = Client(endpoint: Arn, keyId: string, key: Thumbprint, url: Url, domain: string, arn: Arn, order: string)

  function BindingOf(c: Client): (id: BindingId) {
    BindingId(c.endpoint, c.keyId)
  }

  /** The validation as it is created, before its DNS record was looked at. */
  function ValidationOf(c: Client): (v: Validation) {
    Validation(c.arn, c.endpoint, c.domain, Some(Scope(true, false, false)), Validating)
  }

  /** An endpoint, a binding of it, a validation of the domain and a nonce, asked for one after the other. */
  function SetUp(c: Client): (requests: seq<Request>) {
    [CreateEndpoint(c.endpoint), CreateBinding(BindingOf(c)), CreateValidation(c.arn, c.endpoint, c.domain, Scope(true, false, false)),
     Directory(c.endpoint, "n0")]
  }

  function AfterSetUp(c: Client): (s: State) {
    State({c.endpoint}, {"n0"}, {"n0"}, [], map[], map[BindingOf(c) := Binding(None, false)], {BindingOf(c)}, {},
          map[c.arn := ValidationOf(c)], map[], [])
  }

  function AfterAccount(c: Client): (s: State) {
    AfterSetUp(c).(nonces := {"n1"}, issued := {"n0", "n1"}, admitted := ["n0"],
                   accounts := map[c.url := Account(c.endpoint, BindingOf(c), c.key, AccountValid)],
                   bindings := map[BindingOf(c) := Binding(Some(c.url), false)])
  }

  function AfterOrder(c: Client): (s: State) {
    AfterAccount(c).(nonces := {"n2"}, issued := {"n0", "n1", "n2"}, admitted := ["n0", "n1"],
                     orders := map[c.order := Order(c.endpoint, c.url, Ready, [c.domain])])
  }

  /** The client's three requests, each signed with its key. */
  function AccountRequest(c: Client): (req: Request) {
    Data(c.endpoint, "n1", Jws("n0", true, Some(c.key), None, {c.key}), NewAccount(c.url, false, true, c.keyId, true))
  }

  ghost function OrderRequest(c: Client, lower: Lower, answers: Answers): (req: Request) {
    var rows := map[c.arn := ValidationOf(c)];
    Data(c.endpoint, "n2", Jws("n1", true, None, Some(c.url), {c.key}),
         NewOrder(c.order, [c.domain], rows, SomeApproval(rows, c.endpoint, [c.domain], lower, answers)))
  }

  function FinalizeRequest(c: Client): (req: Request) {
    Data(c.endpoint, "n3", Jws("n2", true, None, Some(c.url), {c.key}), Finalize(c.order, Names([c.domain], "", []), true))
  }

  lemma SetUpWorks(letters: Letters, answers: Answers, c: Client) returns (states: seq<State>)
    requires '\0' !in c.endpoint && c.domain != ""
    ensures Run(states, letters, [answers, answers, answers, answers], SetUp(c)) && |states| == 5 && states[4] == AfterSetUp(c)
  {
    hide AfterBody, SignerOf, OrderApproval, SameName;
    var requests := SetUp(c);
    var s0 := State({}, {}, {}, [], map[], map[], {}, {}, map[], map[], []);
    var s1 := s0.(endpoints := {c.endpoint});
    assert Apply(s0, letters, answers, requests[0]) == s1;
    var s2 := s1.(bindings := map[BindingOf(c) := Binding(None, false)], createdBindings := {BindingOf(c)});
    assert Apply(s1, letters, answers, requests[1]) == s2;
    var s3 := s2.(validations := map[c.arn := ValidationOf(c)]);
    assert Apply(s2, letters, answers, requests[2]) == s3;
    assert Apply(s3, letters, answers, requests[3]) == AfterSetUp(c);
    states := [s0, s1, s2, s3, AfterSetUp(c)];
  }

  lemma FirstAccount(letters: Letters, answers: Answers, c: Client)
    requires c.keyId != ""
    ensures Possible(AfterSetUp(c), letters, answers, AccountRequest(c))
    ensures Apply(AfterSetUp(c), letters, answers, AccountRequest(c)) == AfterAccount(c)
  {
    assert NonceAccepted(WithNonce(AfterSetUp(c), "n1"), "n0");
    assert !HasAccount(Admitted(AfterSetUp(c), AccountRequest(c)), c.endpoint, c.key);
  }

  lemma ItsDomainIsApproved(lower: Lower, answers: Answers, c: Client)
    requires GoodLower(lower) && c.domain != "" && !IsWildcard(c.domain) && answers(ValidationOf(c))
    ensures var rows := map[c.arn := ValidationOf(c)]; SomeApproval(rows, c.endpoint, [c.domain], lower, answers).Some?
  {
    var rows := map[c.arn := ValidationOf(c)];
    WildcardKeepsItsCase(c.domain, lower);
    ApprovesExactlyWhen(ValidationOf(c), c.endpoint, EachChar(c.domain, lower), c.domain, lower, answers);
    assert Approves(rows[c.arn], c.endpoint, c.domain, lower, answers);
  }

  lemma FirstOrder(letters: Letters, answers: Answers, c: Client)
    requires GoodLower(letters.lower) && c.domain != "" && !IsWildcard(c.domain) && answers(ValidationOf(c))
    ensures Possible(AfterAccount(c), letters, answers, OrderRequest(c, letters.lower, answers))
    ensures Apply(AfterAccount(c), letters, answers, OrderRequest(c, letters.lower, answers)) == AfterOrder(c)
  {
    hide OrderApproval, GoodLower, IsWildcard;
    ItsDomainIsApproved(letters.lower, answers, c);
    assert NonceAccepted(WithNonce(AfterAccount(c), "n2"), "n1");
    assert Caller(Admitted(AfterAccount(c), OrderRequest(c, letters.lower, answers)), OrderRequest(c, letters.lower, answers)) == ByAccount(c.url);
  }

  lemma FirstCertificate(letters: Letters, answers: Answers, c: Client)
    ensures Possible(AfterOrder(c), letters, answers, FinalizeRequest(c))
    ensures var s := Apply(AfterOrder(c), letters, answers, FinalizeRequest(c));
      s.certificates == [Certificate(c.order, Names([c.domain], "", []), [c.domain])] && s.accounts == AfterOrder(c).accounts
  {
    hide MatchesOrder;
    AnyCommonNameIsAccepted([c.domain], [c.domain], "", [], letters.fold);
    assert NonceAccepted(WithNonce(AfterOrder(c), "n3"), "n2");
    assert Caller(Admitted(AfterOrder(c), FinalizeRequest(c)), FinalizeRequest(c)) == ByAccount(c.url);
  }

  /** One more request of a run. */
  lemma RunGoesOn(states: seq<State>, letters: Letters, answers: seq<Answers>, requests: seq<Request>, answer: Answers, req: Request, s': State)
    requires Run(states, letters, answers, requests) && |states| == |requests| + 1
    requires Possible(states[|requests|], letters, answer, req) && s' == Apply(states[|requests|], letters, answer, req)
    ensures Run(states + [s'], letters, answers + [answer], requests + [req])
  {
    hide Possible, Apply;
    var states', answers', requests' := states + [s'], answers + [answer], requests + [req];
    forall i | 0 <= i < |requests'|
      ensures Possible(states'[i], letters, answers'[i], requests'[i])
      ensures states'[i + 1] == Apply(states'[i], letters, answers'[i], requests'[i])
    {
      if i < |requests| {
        assert states'[i] == states[i] && states'[i + 1] == states[i + 1] && answers'[i] == answers[i] && requests'[i] == requests[i];
      }
    }
  }

  /**
   * For every endpoint, key and domain name there is a run of an empty server
   * that ends with the client's account and a certificate for exactly that name.
   */
  lemma EveryDomainCanHaveACertificate(letters: Letters, answers: Answers, c: Client)
      returns (states: seq<State>, requests: seq<Request>, asked: seq<Answers>)
    requires GoodLower(letters.lower) && '\0' !in c.endpoint && c.keyId != "" && c.domain != "" && !IsWildcard(c.domain)
    requires answers(ValidationOf(c))
    ensures Run(states, letters, asked, requests) && |states| > 0
    ensures var s := states[|states| - 1];
      && s.certificates == [Certificate(c.order, Names([c.domain], "", []), [c.domain])]
      && s.accounts == map[c.url := Account(c.endpoint, BindingOf(c), c.key, AccountValid)]
  {
    hide Run, Possible, Apply, GoodLower, OrderRequest, AccountRequest, FinalizeRequest, SetUp, ValidationOf;
    states := SetUpWorks(letters, answers, c);
    requests, asked := SetUp(c), [answers, answers, answers, answers];
    Lengths(states, letters, asked, requests);
    FirstAccount(letters, answers, c);
    RunGoesOn(states, letters, asked, requests, answers, AccountRequest(c), AfterAccount(c));
    states, asked, requests := states + [AfterAccount(c)], asked + [answers], requests + [AccountRequest(c)];
    FirstOrder(letters, answers, c);
    RunGoesOn(states, letters, asked, requests, answers, OrderRequest(c, letters.lower, answers), AfterOrder(c));
    states, asked, requests := states + [AfterOrder(c)], asked + [answers], requests + [OrderRequest(c, letters.lower, answers)];
    FirstCertificate(letters, answers, c);
    var last := Apply(AfterOrder(c), letters, answers, FinalizeRequest(c));
    RunGoesOn(states, letters, asked, requests, answers, FinalizeRequest(c), last);
    states, asked, requests := states + [last], asked + [answers], requests + [FinalizeRequest(c)];
  }

  lemma Lengths(states: seq<State>, letters: Letters, answers: seq<Answers>, requests: seq<Request>)
    requires Run(states, letters, answers, requests)
    ensures |states| == |requests| + 1
  {
  }
}
