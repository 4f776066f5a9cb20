// The ACME server of simulator-aws/acm_acme.go as a machine whose steps are
// whole requests: nonces, accounts, external account bindings, key changes,
// orders and their certificates. Signatures, encodings and clocks are inputs of
// a request; random identifiers are fresh.

module AcmeServer {
  import opened Common
  import opened AcmeValidations
  import opened CertificateNames

  type Url = string
  type Nonce = string
  type Thumbprint = string

  /** Whether the validation's DNS record answers. */
  type Answers = Validation -> bool

  datatype AccountStatus = AccountValid | Deactivated | AccountRevoked

  /** A binding's ARN is made of its endpoint and its random key id. */
  datatype BindingId = BindingId(endpoint: Arn, keyId: string)

  datatype Account = Account(endpoint: Arn, binding: BindingId, thumbprint: Thumbprint, status: AccountStatus)

  datatype Binding = Binding(account: Option<Url>, revoked: bool)

  datatype OrderStatus = Ready | Finished

  datatype Order = Order(endpoint: Arn, account: Url, status: OrderStatus, identifiers: seq<string>)

  /** A certificate: its order, the names its leaf carries, and the names its stored record lists. */
  datatype Certificate = Certificate(order: string, leaf: Names, record: seq<string>)

  /** How characters are lower-cased, and how they are folded when case is ignored. */
  datatype Letters = Letters(lower: Lower, fold: Fold)

  /**
   * The stores, and what a run leaves behind: every nonce ever issued, the
   * nonces of the requests it admitted, every binding ever created and
   * every one ever revoked, and every certificate issued.
   */
  datatype State = State(
    endpoints: set<Arn>,
    nonces: set<Nonce>, issued: set<Nonce>, admitted: seq<Nonce>,
    accounts: map<Url, Account>,
    bindings: map<BindingId, Binding>, createdBindings: set<BindingId>, revokedBindings: set<BindingId>,
    validations: Rows,
    orders: map<string, Order>, certificates: seq<Certificate>)

  /** A signed request: its nonce, the key it carries or the account it names, and the keys its signature verifies under. */
  datatype Jws = Jws(nonce: Nonce, urlMatches: bool, jwk: Option<Thumbprint>, kid: Option<Url>, signedBy: set<Thumbprint>)

  /** What a request asks for, once its signature is accepted. */
  datatype Body =
    | NewAccount(url: Url, onlyReturnExisting: bool, contactOk: bool, keyId: string, bindingOk: bool)
    | NewOrder(id: string, identifiers: seq<string>, reconciled: Rows, approvals: Option<seq<Validation>>)
    | UpdateAccount(deactivate: bool)
    | Finalize(order: string, csr: Names, csrOk: bool)
    | KeyChange(thumbprint: Thumbprint, innerOk: bool)
    | RevokeCertificate
    | Look                                       // orders, authorizations, certificates

  datatype Request =
    | Data(endpoint: Arn, newNonce: Nonce, jws: Jws, body: Body)
    | Directory(endpoint: Arn, newNonce: Nonce)     // the directory and new-nonce
    | CreateEndpoint(endpoint: Arn)
    | DeleteEndpoint(endpoint: Arn)
    | CreateBinding(id: BindingId)
    | RevokeBinding(id: BindingId)
    | DeleteBinding(id: BindingId)
    | RevokeAccount(endpoint: Arn, url: Url)
    | CreateValidation(arn: Arn, endpoint: Arn, domain: string, scope: Scope)
    | UpdateValidation(arn: Arn, scope: Scope)
    | LookAtValidation(arn: Arn)
    | DeleteValidation(arn: Arn)

  // Nonces.

  function WithNonce(s: State, newNonce: Nonce): (s': State) {
    s.(nonces := s.nonces + {newNonce}, issued := s.issued + {newNonce})
  }

  predicate NonceAccepted(s: State, nonce: Nonce) {
    nonce != "" && nonce in s.nonces
  }

  /** A request past the nonce check has used its nonce up, whatever becomes of it. */
  function Admit(s: State, nonce: Nonce): (s': State) {
    s.(nonces := s.nonces - {nonce}, admitted := s.admitted + [nonce])
  }

  predicate ValidHere(accounts: map<Url, Account>, endpoint: Arn, url: Url) {
    url in accounts && accounts[url].endpoint == endpoint && accounts[url].status == AccountValid
  }

  /** Who signed: a key of its own, or a valid account of the endpoint. */
  datatype Signer = Nobody | ByKey(thumbprint: Thumbprint) | ByAccount(url: Url)

  function SignerOf(s: State, endpoint: Arn, jws: Jws, requireJwk: bool, allowEither: bool): (signer: Signer) {
    if !jws.urlMatches then Nobody
    else if requireJwk || (allowEither && jws.jwk.Some?) then
      (if jws.jwk.Some? && jws.kid.None? && jws.jwk.value in jws.signedBy then ByKey(jws.jwk.value) else Nobody)
    else if jws.kid.Some? && jws.jwk.None? && ValidHere(s.accounts, endpoint, jws.kid.value)
         && s.accounts[jws.kid.value].thumbprint in jws.signedBy then
      ByAccount(jws.kid.value)
    else Nobody
  }

  // The handlers.

  predicate HasAccount(s: State, endpoint: Arn, thumbprint: Thumbprint) {
    exists url :: url in s.accounts && s.accounts[url].endpoint == endpoint && s.accounts[url].thumbprint == thumbprint
  }

  /** acmACMENewAccount: an existing key returns its account, otherwise a free binding makes one. */
  function AfterNewAccount(s: State, endpoint: Arn, thumbprint: Thumbprint, b: Body): (s': State)
    requires b.NewAccount?
  {
    if HasAccount(s, endpoint, thumbprint) || b.onlyReturnExisting || !b.contactOk then s
    else
      var id := BindingId(endpoint, b.keyId);
      if b.keyId == "" || id !in s.bindings || s.bindings[id].revoked || s.bindings[id].account.Some? || !b.bindingOk then s
      else s.(accounts := s.accounts[b.url := Account(endpoint, id, thumbprint, AccountValid)],
              bindings := s.bindings[id := s.bindings[id].(account := Some(b.url))])
  }

  /** Another account of the endpoint than url has the key. */
  predicate KeyTaken(accounts: map<Url, Account>, url: Url, endpoint: Arn, thumbprint: Thumbprint) {
    exists other ::
      other in accounts && other != url && accounts[other].endpoint == endpoint && accounts[other].thumbprint == thumbprint
  }

  /** acmACMEKeyChange: refused when another account of the endpoint has the key. */
  function AfterKeyChange(s: State, url: Url, b: Body): (s': State)
    requires b.KeyChange? && url in s.accounts
  {
    var account := s.accounts[url];
    if !b.innerOk then s
    else if KeyTaken(s.accounts, url, account.endpoint, b.thumbprint) then s
    else s.(accounts := s.accounts[url := account.(thumbprint := b.thumbprint)])
  }

  /** acmACMENewOrder: each identifier is looked up, which may reconcile validations; one that is not covered refuses the order. */
  function AfterNewOrder(s: State, endpoint: Arn, url: Url, b: Body): (s': State)
    requires b.NewOrder?
  {
    var looked := s.(validations := b.reconciled);
    if b.identifiers == [] then s
    else if b.approvals.None? then looked
    else looked.(orders := s.orders[b.id := Order(endpoint, url, Ready, b.identifiers)])
  }

  /** acmACMEFinalize: a ready order of the account becomes finished with its one certificate, whose leaf takes its names from the request. */
  function AfterFinalize(s: State, fold: Fold, endpoint: Arn, url: Url, b: Body): (s': State)
    requires b.Finalize?
  {
    if b.order !in s.orders || s.orders[b.order].endpoint != endpoint || s.orders[b.order].account != url then s
    else if s.orders[b.order].status != Ready || !b.csrOk || !MatchesOrder(b.csr, s.orders[b.order].identifiers, fold) then s
    else s.(orders := s.orders[b.order := s.orders[b.order].(status := Finished)],
            certificates := s.certificates + [Certificate(b.order, b.csr, s.orders[b.order].identifiers)])
  }

  function AfterBody(s: State, fold: Fold, endpoint: Arn, signer: Signer, b: Body): (s': State) {
    match signer
    case Nobody => s
    case ByKey(thumbprint) => if b.NewAccount? then AfterNewAccount(s, endpoint, thumbprint, b) else s
    case ByAccount(url) =>
      match b
      case NewOrder(_, _, _, _) => AfterNewOrder(s, endpoint, url, b)
      case UpdateAccount(deactivate) =>
        if url in s.accounts && deactivate then s.(accounts := s.accounts[url := s.accounts[url].(status := Deactivated)]) else s
      case Finalize(_, _, _) => AfterFinalize(s, fold, endpoint, url, b)
      case KeyChange(_, _) => if url in s.accounts then AfterKeyChange(s, url, b) else s
      case _ => s
  }

  /** The endpoint already has a validation of the domain, up to case. */
  predicate DomainTaken(rows: Rows, endpoint: Arn, domain: string, letters: Letters) {
    exists arn :: arn in rows && rows[arn].endpoint == endpoint && SameName(rows[arn].domain, domain, letters.fold)
  }

  /** The requests about validations: a new one needs its endpoint and a domain of its own, an update starts it over. */
  function ValidationsAfter(rows: Rows, endpoints: set<Arn>, letters: Letters, answers: Answers, req: Request): (rows': Rows) {
    match req
    case CreateValidation(arn, endpoint, domain, scope) =>
      if endpoint !in endpoints || domain == "" || DomainTaken(rows, endpoint, domain, letters) then rows
      else rows[arn := Validation(arn, endpoint, domain, Some(scope), Validating)]
    case UpdateValidation(arn, scope) =>
      if arn !in rows then rows else rows[arn := rows[arn].(scope := Some(scope), status := Validating)]
    case LookAtValidation(arn) => if arn !in rows then rows else rows[arn := Reconciled(rows[arn], answers)]
    case DeleteValidation(arn) => rows - {arn}
    case _ => rows
  }

  function Apply(s: State, letters: Letters, answers: Answers, req: Request): (s': State) {
    match req
    case Data(endpoint, newNonce, jws, body) =>
      if endpoint !in s.endpoints then s
      else
        var s1 := WithNonce(s, newNonce);
        if !NonceAccepted(s1, jws.nonce) then s1
        else
          var s2 := Admit(s1, jws.nonce);
          AfterBody(s2, letters.fold, endpoint, SignerOf(s2, endpoint, jws, body.NewAccount?, body.RevokeCertificate?), body)
    case Directory(endpoint, newNonce) => if endpoint in s.endpoints then WithNonce(s, newNonce) else s
    case CreateEndpoint(endpoint) => s.(endpoints := s.endpoints + {endpoint})
    case DeleteEndpoint(endpoint) =>
      if (exists arn :: arn in s.validations && s.validations[arn].endpoint == endpoint)
         || (exists id :: id in s.bindings && id.endpoint == endpoint && !s.bindings[id].revoked) then s
      else s.(endpoints := s.endpoints - {endpoint})
    case CreateBinding(id) =>
      if id.endpoint !in s.endpoints then s
      else s.(bindings := s.bindings[id := Binding(None, false)], createdBindings := s.createdBindings + {id})
    case RevokeBinding(id) =>
      if id in s.bindings then
        s.(bindings := s.bindings[id := s.bindings[id].(revoked := true)], revokedBindings := s.revokedBindings + {id})
      else s
    case DeleteBinding(id) =>
      if id !in s.bindings || (s.bindings[id].account.Some? && !s.bindings[id].revoked) then s
      else s.(bindings := s.bindings - {id})
    case RevokeAccount(endpoint, url) =>
      if url in s.accounts && s.accounts[url].endpoint == endpoint then
        s.(accounts := s.accounts[url := s.accounts[url].(status := AccountRevoked)]) else s
    case _ => s.(validations := ValidationsAfter(s.validations, s.endpoints, letters, answers, req))
  }

  /** What the environment promises: random identifiers are fresh, and a new order's identifiers are looked up one by one. */
  ghost predicate Possible(s: State, letters: Letters, answers: Answers, req: Request) {
    match req
    case Data(endpoint, newNonce, jws, body) =>
      && newNonce !in s.issued && newNonce != jws.nonce
      && (body.NewAccount? ==> body.url !in s.accounts)
      && (body.NewOrder? ==>
            && body.id !in s.orders
            && OrderApproval(s.validations, body.reconciled, endpoint, body.identifiers, letters.lower, answers, body.approvals))
    case Directory(_, newNonce) => newNonce !in s.issued
    case CreateBinding(id) => id !in s.createdBindings
    case CreateEndpoint(endpoint) => '\0' !in endpoint
    case CreateValidation(arn, _, _, _) => arn !in s.validations
    case _ => true
  }

  ghost predicate Start(s: State) {
    s.endpoints == {} && s.nonces == {} && s.issued == {} && s.admitted == [] && s.accounts == map[]
    && s.bindings == map[] && s.createdBindings == {} && s.revokedBindings == {}
    && s.validations == map[] && s.orders == map[] && s.certificates == []
  }

  /** A run: the requests, and for each of them what DNS answered at the time. */
  ghost predicate Run(states: seq<State>, letters: Letters, answers: seq<Answers>, requests: seq<Request>) {
    && |states| == |requests| + 1 && |answers| == |requests| && Start(states[0])
    && forall i :: 0 <= i < |requests| ==>
         && Possible(states[i], letters, answers[i], requests[i])
         && states[i + 1] == Apply(states[i], letters, answers[i], requests[i])
  }

  // The invariants.

  ghost predicate NoncesOk(s: State) {
    && s.nonces == (set nonce | nonce in s.issued && nonce !in s.admitted)
    && (forall i :: 0 <= i < |s.admitted| ==> s.admitted[i] in s.issued)
    && (forall i, j :: 0 <= i < j < |s.admitted| ==> s.admitted[i] != s.admitted[j])
  }

  ghost predicate KeysOk(s: State) {
    forall a, b :: a in s.accounts && b in s.accounts && a != b ==>
      !(s.accounts[a].endpoint == s.accounts[b].endpoint && s.accounts[a].thumbprint == s.accounts[b].thumbprint)
  }

  ghost predicate BindingsOk(s: State) {
    && s.bindings.Keys <= s.createdBindings
    && (forall a :: a in s.accounts ==>
          && s.accounts[a].binding in s.createdBindings
          && (s.accounts[a].binding in s.bindings ==> s.bindings[s.accounts[a].binding].account == Some(a)))
    && (forall a, b :: a in s.accounts && b in s.accounts && a != b ==> s.accounts[a].binding != s.accounts[b].binding)
  }

  /** A binding an account came from is still there, or was revoked. */
  ghost predicate UsedBindingsOk(s: State) {
    && (forall id :: id in s.bindings && s.bindings[id].revoked ==> id in s.revokedBindings)
    && (forall a :: a in s.accounts ==> s.accounts[a].binding in s.bindings || s.accounts[a].binding in s.revokedBindings)
  }

  /** Validations and active bindings have their endpoint, and each domain of an endpoint one validation. */
  ghost predicate ResourcesOk(s: State, letters: Letters) {
    && OwnArns(s.validations) && (forall e :: e in s.endpoints ==> '\0' !in e)
    && (forall id :: id in s.bindings && !s.bindings[id].revoked ==> id.endpoint in s.endpoints)
    && (forall arn :: arn in s.validations ==> s.validations[arn].endpoint in s.endpoints)
    && DomainsApart(s.validations, letters)
  }

  ghost predicate DomainsApart(rows: Rows, letters: Letters) {
    forall a, b :: a in rows && b in rows && a != b ==>
      rows[a].endpoint != rows[b].endpoint || !SameName(rows[a].domain, rows[b].domain, letters.fold)
  }

  ghost predicate OrdersOk(s: State, fold: Fold) {
    && (forall i :: 0 <= i < |s.certificates| ==>
          && s.certificates[i].order in s.orders
          && s.orders[s.certificates[i].order].status == Finished
          && s.orders[s.certificates[i].order].identifiers == s.certificates[i].record
          && MatchesOrder(s.certificates[i].leaf, s.certificates[i].record, fold))
    && (forall i, j :: 0 <= i < j < |s.certificates| ==> s.certificates[i].order != s.certificates[j].order)
  }

  ghost predicate Inv(s: State, letters: Letters) {
    NoncesOk(s) && KeysOk(s) && BindingsOk(s) && UsedBindingsOk(s) && ResourcesOk(s, letters) && OrdersOk(s, letters.fold)
  }

  // A handler after the nonce check.

  lemma BodyLeavesNonces(s: State, fold: Fold, endpoint: Arn, signer: Signer, b: Body)
    ensures var s' := AfterBody(s, fold, endpoint, signer, b); s'.nonces == s.nonces && s'.issued == s.issued && s'.admitted == s.admitted
    ensures AfterBody(s, fold, endpoint, signer, b).createdBindings == s.createdBindings
  {
    hide MatchesOrder, KeyTaken, HasAccount;
  }

  lemma BodyKeepsKeys(s: State, fold: Fold, endpoint: Arn, signer: Signer, b: Body)
    requires KeysOk(s)
    ensures KeysOk(AfterBody(s, fold, endpoint, signer, b))
  {
  }

  lemma NewAccountKeepsBindings(s: State, endpoint: Arn, thumbprint: Thumbprint, b: Body)
    requires BindingsOk(s) && b.NewAccount? && b.url !in s.accounts
    ensures BindingsOk(AfterNewAccount(s, endpoint, thumbprint, b))
  {
    hide HasAccount;
  }

  lemma BodyKeepsBindings(s: State, fold: Fold, endpoint: Arn, signer: Signer, b: Body)
    requires BindingsOk(s) && (b.NewAccount? ==> b.url !in s.accounts)
    ensures BindingsOk(AfterBody(s, fold, endpoint, signer, b))
  {
    hide MatchesOrder, KeyTaken, AfterNewAccount;
    if signer.ByKey? && b.NewAccount? {
      NewAccountKeepsBindings(s, endpoint, signer.thumbprint, b);
    }
  }

  lemma BodyKeepsUsedBindings(s: State, fold: Fold, endpoint: Arn, signer: Signer, b: Body)
    requires UsedBindingsOk(s)
    ensures UsedBindingsOk(AfterBody(s, fold, endpoint, signer, b))
  {
  }

  /** What a handler can do to endpoints, bindings and validations. */
  lemma BodyLeavesResources(s: State, fold: Fold, endpoint: Arn, signer: Signer, b: Body)
    ensures var s' := AfterBody(s, fold, endpoint, signer, b);
      && s'.endpoints == s.endpoints && s'.bindings.Keys == s.bindings.Keys
      && (forall id :: id in s.bindings ==> s'.bindings[id].revoked == s.bindings[id].revoked)
      && (s'.validations == s.validations || (b.NewOrder? && s'.validations == b.reconciled))
  {
    hide MatchesOrder, KeyTaken, HasAccount;
  }

  lemma ReconcilingLeavesDomains(rows: Rows, rows': Rows, answers: Answers, letters: Letters)
    requires OwnArns(rows) && DomainsApart(rows, letters) && OnlyReconciled(rows, rows', answers)
    ensures OwnArns(rows') && DomainsApart(rows', letters)
    ensures forall arn :: arn in rows' ==> rows'[arn].endpoint == rows[arn].endpoint
  {
    hide SameName;
    assert forall arn :: arn in rows ==> rows'[arn].endpoint == rows[arn].endpoint && rows'[arn].domain == rows[arn].domain;
  }

  lemma BodyKeepsOrders(s: State, fold: Fold, endpoint: Arn, signer: Signer, b: Body)
    requires OrdersOk(s, fold) && (b.NewOrder? ==> b.id !in s.orders)
    ensures OrdersOk(AfterBody(s, fold, endpoint, signer, b), fold)
  {
    hide MatchesOrder, KeyTaken, HasAccount;
  }

  lemma AdmissionKeepsNonces(s: State, newNonce: Nonce, nonce: Nonce)
    requires NoncesOk(s) && newNonce !in s.issued && newNonce != nonce && NonceAccepted(WithNonce(s, newNonce), nonce)
    ensures NoncesOk(Admit(WithNonce(s, newNonce), nonce))
  {
  }

  /** The state a handler starts from and the caller it serves, when a request gets that far. */
  function Admitted(s: State, req: Request): (s2: State)
    requires req.Data?
  {
    Admit(WithNonce(s, req.newNonce), req.jws.nonce)
  }

  function Caller(s: State, req: Request): (signer: Signer)
    requires req.Data?
  {
    SignerOf(s, req.endpoint, req.jws, req.body.NewAccount?, req.body.RevokeCertificate?)
  }

  lemma RequestKeepsNonces(s: State, letters: Letters, answers: Answers, req: Request)
    requires NoncesOk(s) && Possible(s, letters, answers, req)
    ensures NoncesOk(Apply(s, letters, answers, req))
  {
    hide AfterBody, SignerOf, OrderApproval;
    if req.Data? && NonceAccepted(WithNonce(s, req.newNonce), req.jws.nonce) {
      AdmissionKeepsNonces(s, req.newNonce, req.jws.nonce);
      BodyLeavesNonces(Admitted(s, req), letters.fold, req.endpoint, Caller(Admitted(s, req), req), req.body);
    }
  }

  lemma RequestKeepsKeys(s: State, letters: Letters, answers: Answers, req: Request)
    requires KeysOk(s)
    ensures KeysOk(Apply(s, letters, answers, req))
  {
    hide AfterBody, SignerOf;
    if req.Data? {
      BodyKeepsKeys(Admitted(s, req), letters.fold, req.endpoint, Caller(Admitted(s, req), req), req.body);
    }
  }

  lemma RequestKeepsBindings(s: State, letters: Letters, answers: Answers, req: Request)
    requires BindingsOk(s) && Possible(s, letters, answers, req)
    ensures BindingsOk(Apply(s, letters, answers, req))
  {
    hide AfterBody, SignerOf, OrderApproval;
    if req.Data? {
      BodyKeepsBindings(Admitted(s, req), letters.fold, req.endpoint, Caller(Admitted(s, req), req), req.body);
    }
  }

  lemma RequestKeepsUsedBindings(s: State, letters: Letters, answers: Answers, req: Request)
    requires UsedBindingsOk(s) && BindingsOk(s) && Possible(s, letters, answers, req)
    ensures UsedBindingsOk(Apply(s, letters, answers, req))
  {
    hide AfterBody, SignerOf, OrderApproval, ValidationsAfter;
    if req.Data? {
      BodyKeepsUsedBindings(Admitted(s, req), letters.fold, req.endpoint, Caller(Admitted(s, req), req), req.body);
    }
  }

  lemma DataKeepsResources(s: State, letters: Letters, answers: Answers, req: Request)
    requires ResourcesOk(s, letters) && Possible(s, letters, answers, req) && req.Data?
    ensures ResourcesOk(Apply(s, letters, answers, req), letters)
  {
    hide AfterBody, SignerOf, OrderApproval, SameName, DomainsApart, OwnArns, OnlyReconciled;
    BodyLeavesResources(Admitted(s, req), letters.fold, req.endpoint, Caller(Admitted(s, req), req), req.body);
    if req.body.NewOrder? {
      OrderOnlyReconciles(s.validations, req.body.reconciled, req.endpoint, req.body.identifiers, letters, answers, req.body.approvals);
      ReconcilingLeavesDomains(s.validations, req.body.reconciled, answers, letters);
    }
  }

  /** Requests about endpoints and bindings. */
  lemma OtherRequestsKeepResources(s: State, letters: Letters, answers: Answers, req: Request)
    requires ResourcesOk(s, letters) && Possible(s, letters, answers, req) && !req.Data?
    requires !req.CreateValidation? && !req.UpdateValidation? && !req.LookAtValidation? && !req.DeleteValidation?
    ensures ResourcesOk(Apply(s, letters, answers, req), letters)
  {
    hide AfterBody, SignerOf, OrderApproval, DomainsApart, OwnArns;
  }

  lemma ValidationsStayOk(rows: Rows, endpoints: set<Arn>, letters: Letters, answers: Answers, req: Request)
    requires OwnArns(rows) && (forall arn :: arn in rows ==> rows[arn].endpoint in endpoints) && DomainsApart(rows, letters)
    requires req.CreateValidation? ==> req.arn !in rows
    ensures var rows' := ValidationsAfter(rows, endpoints, letters, answers, req);
      OwnArns(rows') && (forall arn :: arn in rows' ==> rows'[arn].endpoint in endpoints) && DomainsApart(rows', letters)
  {
    hide EachChar;
  }

  lemma ValidationRequestsKeepResources(s: State, letters: Letters, answers: Answers, req: Request)
    requires ResourcesOk(s, letters) && Possible(s, letters, answers, req)
    requires req.CreateValidation? || req.UpdateValidation? || req.LookAtValidation? || req.DeleteValidation?
    ensures ResourcesOk(Apply(s, letters, answers, req), letters)
  {
    hide AfterBody, SignerOf, OrderApproval, ValidationsAfter, OwnArns, DomainsApart;
    ValidationsStayOk(s.validations, s.endpoints, letters, answers, req);
  }

  lemma RequestKeepsResources(s: State, letters: Letters, answers: Answers, req: Request)
    requires ResourcesOk(s, letters) && Possible(s, letters, answers, req)
    ensures ResourcesOk(Apply(s, letters, answers, req), letters)
  {
    hide Apply, ResourcesOk, Possible;
    if req.Data? {
      DataKeepsResources(s, letters, answers, req);
    } else if req.CreateValidation? || req.UpdateValidation? || req.LookAtValidation? || req.DeleteValidation? {
      ValidationRequestsKeepResources(s, letters, answers, req);
    } else {
      OtherRequestsKeepResources(s, letters, answers, req);
    }
  }

  lemma OrderOnlyReconciles(rows: Rows, rows': Rows, endpoint: Arn, identifiers: seq<string>, letters: Letters, answers: Answers,
                            approvals: Option<seq<Validation>>)
    requires OrderApproval(rows, rows', endpoint, identifiers, letters.lower, answers, approvals)
    ensures OnlyReconciled(rows, rows', answers)
  {
  }

  lemma RequestKeepsOrders(s: State, letters: Letters, answers: Answers, req: Request)
    requires OrdersOk(s, letters.fold) && Possible(s, letters, answers, req)
    ensures OrdersOk(Apply(s, letters, answers, req), letters.fold)
  {
    hide AfterBody, SignerOf, OrderApproval;
    if req.Data? {
      BodyKeepsOrders(Admitted(s, req), letters.fold, req.endpoint, Caller(Admitted(s, req), req), req.body);
    }
  }

  /** A handler leaves an order's endpoint and names alone, and makes one only with an approval for each identifier. */
  lemma BodyMakesApprovedOrders(s: State, fold: Fold, endpoint: Arn, signer: Signer, b: Body, id: string)
    requires id in AfterBody(s, fold, endpoint, signer, b).orders
    ensures var order := AfterBody(s, fold, endpoint, signer, b).orders[id];
      if id in s.orders && !(b.NewOrder? && b.id == id) then order.endpoint == s.orders[id].endpoint && order.identifiers == s.orders[id].identifiers
      else
        && b.NewOrder? && b.id == id && (id in s.orders || b.approvals.Some?)
        && (id !in s.orders ==> order.endpoint == endpoint && order.identifiers == b.identifiers != [])
  {
    hide MatchesOrder, KeyTaken, HasAccount;
  }

  lemma ApprovedMeansApprovable(rows: Rows, rows': Rows, endpoint: Arn, identifiers: seq<string>, lower: Lower, answers: Answers,
                                approvals: Option<seq<Validation>>)
    requires OrderApproval(rows, rows', endpoint, identifiers, lower, answers, approvals) && approvals.Some?
    ensures forall i :: 0 <= i < |identifiers| ==> Approvable(rows, endpoint, identifiers[i], lower, answers)
  {
    hide Approvable, IsApproval, OnlyReconciled;
  }

  /** Orders are never removed, keep what they were created with, and appear only with an approval for each identifier. */
  lemma OrdersAppearApproved(s: State, letters: Letters, answers: Answers, req: Request, id: string)
    requires Possible(s, letters, answers, req) && id in Apply(s, letters, answers, req).orders
    ensures var order := Apply(s, letters, answers, req).orders[id];
      if id in s.orders then order.endpoint == s.orders[id].endpoint && order.identifiers == s.orders[id].identifiers
      else order.identifiers != [] && forall i :: 0 <= i < |order.identifiers| ==>
             Approvable(s.validations, order.endpoint, order.identifiers[i], letters.lower, answers)
  {
    hide Approvable, OrderApproval, SignerOf, AfterBody, ValidationsAfter;
    if req.Data? && req.endpoint in s.endpoints && NonceAccepted(WithNonce(s, req.newNonce), req.jws.nonce) {
      BodyMakesApprovedOrders(Admitted(s, req), letters.fold, req.endpoint, Caller(Admitted(s, req), req), req.body, id);
      if req.body.NewOrder? && req.body.approvals.Some? {
        ApprovedMeansApprovable(s.validations, req.body.reconciled, req.endpoint, req.body.identifiers, letters.lower, answers, req.body.approvals);
      }
    }
  }

  lemma {:induction false} RunKeepsInv(states: seq<State>, letters: Letters, answers: seq<Answers>, requests: seq<Request>, n: nat)
    requires Run(states, letters, answers, requests) && n < |states|
    ensures Inv(states[n], letters)
    decreases n
  {
    hide Possible, Apply;
    if n > 0 {
      RunKeepsInv(states, letters, answers, requests, n - 1);
      var s, req := states[n - 1], requests[n - 1];
      RequestKeepsNonces(s, letters, answers[n - 1], req);
      RequestKeepsKeys(s, letters, answers[n - 1], req);
      RequestKeepsUsedBindings(s, letters, answers[n - 1], req);
      RequestKeepsResources(s, letters, answers[n - 1], req);
      RequestKeepsBindings(s, letters, answers[n - 1], req);
      RequestKeepsOrders(s, letters, answers[n - 1], req);
    }
  }

  /** Section 6.5 of RFC 8555: a request is admitted exactly when its nonce was issued and admitted none before. */
  lemma EachNonceAdmitsAtMostOneRequest(states: seq<State>, letters: Letters, answers: seq<Answers>, requests: seq<Request>, n: nat)
    requires Run(states, letters, answers, requests) && n < |states|
    ensures forall i, j :: 0 <= i < j < |states[n].admitted| ==> states[n].admitted[i] != states[n].admitted[j]
    ensures forall i :: 0 <= i < |states[n].admitted| ==> states[n].admitted[i] in states[n].issued
    ensures n < |requests| && requests[n].Data? && requests[n].endpoint in states[n].endpoints ==>
      var nonce := requests[n].jws.nonce;
      states[n + 1].admitted == if nonce != "" && nonce in states[n].issued && nonce !in states[n].admitted
                                then states[n].admitted + [nonce] else states[n].admitted
  {
    RunKeepsInv(states, letters, answers, requests, n);
    if n < |requests| && requests[n].Data? {
      var s2 := Admitted(states[n], requests[n]);
      BodyLeavesNonces(s2, letters.fold, requests[n].endpoint, Caller(s2, requests[n]), requests[n].body);
    }
  }

  /** Sections 7.3 and 7.3.5 of RFC 8555: in every reachable state a key has at most one account in an endpoint. */
  lemma AKeyHasOneAccount(states: seq<State>, letters: Letters, answers: seq<Answers>, requests: seq<Request>, n: nat, a: Url, b: Url)
    requires Run(states, letters, answers, requests) && n < |states| && a in states[n].accounts && b in states[n].accounts
    requires states[n].accounts[a].endpoint == states[n].accounts[b].endpoint
    requires states[n].accounts[a].thumbprint == states[n].accounts[b].thumbprint
    ensures a == b
  {
    RunKeepsInv(states, letters, answers, requests, n);
  }

  /** Section 7.3.4 of RFC 8555: a binding ever created serves at most one account, even after it is deleted. */
  lemma ABindingServesOneAccount(states: seq<State>, letters: Letters, answers: seq<Answers>, requests: seq<Request>, n: nat, a: Url, b: Url)
    requires Run(states, letters, answers, requests) && n < |states| && a in states[n].accounts && b in states[n].accounts
    requires states[n].accounts[a].binding == states[n].accounts[b].binding
    ensures a == b && states[n].accounts[a].binding in states[n].createdBindings
  {
    RunKeepsInv(states, letters, answers, requests, n);
  }

  /**
   * Nothing is left dangling: a validation or an active binding has its
   * endpoint, a domain of an endpoint has one validation, and a binding that
   * made an account is deleted only after it was revoked.
   */
  lemma NothingDangles(states: seq<State>, letters: Letters, answers: seq<Answers>, requests: seq<Request>, n: nat)
    requires Run(states, letters, answers, requests) && n < |states|
    ensures var s := states[n];
      && (forall arn :: arn in s.validations ==> s.validations[arn].endpoint in s.endpoints)
      && (forall id :: id in s.bindings && !s.bindings[id].revoked ==> id.endpoint in s.endpoints)
      && (forall a :: a in s.accounts ==> s.accounts[a].binding in s.bindings || s.accounts[a].binding in s.revokedBindings)
      && DomainsApart(s.validations, letters)
  {
    RunKeepsInv(states, letters, answers, requests, n);
  }

  /** An account keeps its endpoint and binding, and once closed everything but its status, which never is VALID again. */
  ghost predicate Keeps(account: Account, after: Account) {
    && after.endpoint == account.endpoint && after.binding == account.binding
    && (account.status != AccountValid ==> after.status != AccountValid && after.thumbprint == account.thumbprint)
  }

  lemma BodyKeepsClosed(s: State, fold: Fold, endpoint: Arn, signer: Signer, b: Body, url: Url)
    requires url in s.accounts && (b.NewAccount? ==> b.url !in s.accounts)
    requires signer.ByAccount? && signer.url in s.accounts ==> s.accounts[signer.url].status == AccountValid
    ensures url in AfterBody(s, fold, endpoint, signer, b).accounts && Keeps(s.accounts[url], AfterBody(s, fold, endpoint, signer, b).accounts[url])
  {
    hide KeyTaken, HasAccount;
  }

  lemma ClosedStays(s: State, letters: Letters, answers: Answers, req: Request, url: Url)
    requires Possible(s, letters, answers, req) && url in s.accounts
    ensures url in Apply(s, letters, answers, req).accounts && Keeps(s.accounts[url], Apply(s, letters, answers, req).accounts[url])
  {
    hide OrderApproval, ValidationsAfter, AfterBody;
    if req.Data? {
      BodyKeepsClosed(Admitted(s, req), letters.fold, req.endpoint, Caller(Admitted(s, req), req), req.body, url);
    }
  }

  /** A deactivated or revoked account stays as it is, its key included, and never signs a request again. */
  lemma {:induction false} ClosedAccountsStayClosed(states: seq<State>, letters: Letters, answers: seq<Answers>, requests: seq<Request>,
                                                    m: nat, n: nat, url: Url)
    requires Run(states, letters, answers, requests) && m <= n < |states|
    requires url in states[m].accounts && states[m].accounts[url].status != AccountValid
    ensures url in states[n].accounts && states[n].accounts[url].status != AccountValid
    ensures states[n].accounts[url].thumbprint == states[m].accounts[url].thumbprint
    ensures n < |requests| && requests[n].Data? ==> Caller(Admitted(states[n], requests[n]), requests[n]) != ByAccount(url)
    decreases n
  {
    hide Possible, Apply;
    if n > m {
      ClosedAccountsStayClosed(states, letters, answers, requests, m, n - 1, url);
      ClosedStays(states[n - 1], letters, answers[n - 1], requests[n - 1], url);
    }
  }

  /**
   * Section 7.4 of RFC 8555: an order yields at most one certificate. Its
   * stored record lists exactly the order's names, and its leaf has the names
   * of a request that matched the order.
   */
  lemma AnOrderYieldsOneCertificate(states: seq<State>, letters: Letters, answers: seq<Answers>, requests: seq<Request>, n: nat)
    requires Run(states, letters, answers, requests) && n < |states|
    ensures var s := states[n];
      && (forall i, j :: 0 <= i < j < |s.certificates| ==> s.certificates[i].order != s.certificates[j].order)
      && (forall i :: 0 <= i < |s.certificates| ==>
            && s.certificates[i].order in s.orders && s.orders[s.certificates[i].order].identifiers == s.certificates[i].record
            && MatchesOrder(s.certificates[i].leaf, s.certificates[i].record, letters.fold))
  {
    RunKeepsInv(states, letters, answers, requests, n);
  }

  /** Every stored order has a request m that made it, and when it did every identifier of the order was covered. */
  lemma {:induction false} EveryOrderWasCovered(states: seq<State>, letters: Letters, answers: seq<Answers>, requests: seq<Request>,
                                                n: nat, id: string) returns (m: nat)
    requires Run(states, letters, answers, requests) && n < |states| && id in states[n].orders
    ensures m < n && id !in states[m].orders && states[n].orders[id].identifiers != []
    ensures forall i :: 0 <= i < |states[n].orders[id].identifiers| ==>
      Approvable(states[m].validations, states[n].orders[id].endpoint, states[n].orders[id].identifiers[i], letters.lower, answers[m])
    decreases n
  {
    hide Possible, Apply, Approvable;
    OrdersAppearApproved(states[n - 1], letters, answers[n - 1], requests[n - 1], id);
    if id in states[n - 1].orders {
      m := EveryOrderWasCovered(states, letters, answers, requests, n - 1, id);
    } else {
      m := n - 1;
    }
  }

  /** Up to case, the name is an identifier of the order that was covered when request m made the order. */
  ghost predicate CoveredAt(states: seq<State>, letters: Letters, answers: seq<Answers>, m: nat, order: Order, name: string) {
    && m < |states| && m < |answers|
    && exists i :: 0 <= i < |order.identifiers| && SameName(name, order.identifiers[i], letters.fold)
                   && Approvable(states[m].validations, order.endpoint, order.identifiers[i], letters.lower, answers[m])
  }

  /** Every name of the leaf, whatever its kind, was covered; only DNS names can be. */
  ghost predicate LeafCoveredAt(states: seq<State>, letters: Letters, answers: seq<Answers>, m: nat, order: Order, leaf: Names) {
    && leaf.others == []
    && (leaf.commonName != "" ==> CoveredAt(states, letters, answers, m, order, leaf.commonName))
    && forall k :: 0 <= k < |leaf.dns| ==> CoveredAt(states, letters, answers, m, order, leaf.dns[k])
  }

  lemma CoveredMeansInOrder(states: seq<State>, letters: Letters, answers: seq<Answers>, m: nat, order: Order, name: string)
    requires m < |states| && m < |answers|
    requires forall i :: 0 <= i < |order.identifiers| ==>
      Approvable(states[m].validations, order.endpoint, order.identifiers[i], letters.lower, answers[m])
    ensures CoveredAt(states, letters, answers, m, order, name) <==> InOrder(name, order.identifiers, letters.fold)
  {
    hide Approvable, SameName;
  }

  /**
   * The leaf of every certificate ever issued whose joined names split like the
   * order's, as they do without NUL: its DNS names were covered when the order
   * was made, and all its names were exactly when it has none beside DNS names
   * and its common name is empty, one of the DNS names, or stands in for them.
   */
  lemma LeafNamesWereCoveredExactlyWhen(states: seq<State>, letters: Letters, answers: seq<Answers>, requests: seq<Request>, n: nat, c: nat)
    returns (m: nat)
    requires Run(states, letters, answers, requests) && n < |states| && c < |states[n].certificates|
    requires SplitsAlike(states[n].certificates[c].leaf, states[n].certificates[c].record)
    ensures m < n && states[n].certificates[c].order in states[n].orders
    ensures var leaf, order := states[n].certificates[c].leaf, states[n].orders[states[n].certificates[c].order];
      && (forall k :: 0 <= k < |leaf.dns| ==> CoveredAt(states, letters, answers, m, order, leaf.dns[k]))
      && (LeafCoveredAt(states, letters, answers, m, order, leaf) <==>
            leaf.others == [] && (leaf.commonName == "" || leaf.dns == [] || InOrder(leaf.commonName, leaf.dns, letters.fold)))
  {
    hide MatchesOrder, SplitsAlike, CoveredAt, InOrder, Possible, Apply, Approvable;
    AnOrderYieldsOneCertificate(states, letters, answers, requests, n);
    var certificate := states[n].certificates[c];
    var leaf, order := certificate.leaf, states[n].orders[certificate.order];
    m := EveryOrderWasCovered(states, letters, answers, requests, n, certificate.order);
    AllInOrderExactlyWhen(leaf, order.identifiers, letters.fold);
    CoveredMeansInOrder(states, letters, answers, m, order, leaf.commonName);
    forall k | 0 <= k < |leaf.dns|
      ensures CoveredAt(states, letters, answers, m, order, leaf.dns[k]) && InOrder(leaf.dns[k], order.identifiers, letters.fold)
    {
      DnsNamesAreInOrder(leaf, order.identifiers, letters.fold, k);
      CoveredMeansInOrder(states, letters, answers, m, order, leaf.dns[k]);
    }
  }

  /**
   * It can fail for every ready order: a request with the order's names and any
   * common name and other names at all is accepted, and the leaf carries them.
   */
  lemma FinalizeTakesAnyCommonName(s: State, fold: Fold, endpoint: Arn, url: Url, id: string,
                                   dns: seq<string>, commonName: string, others: seq<string>)
    requires id in s.orders && s.orders[id].endpoint == endpoint && s.orders[id].account == url && s.orders[id].status == Ready
    requires s.orders[id].identifiers != [] && multiset(dns) == multiset(s.orders[id].identifiers)
    ensures var s' := AfterFinalize(s, fold, endpoint, url, Finalize(id, Names(dns, commonName, others), true));
      |s'.certificates| == |s.certificates| + 1 && s'.certificates[|s.certificates|].leaf == Names(dns, commonName, others)
  {
    AnyCommonNameIsAccepted(dns, s.orders[id].identifiers, commonName, others, fold);
  }

  // The handlers over the stores they change.

  /** The body with what a lookup that changes no row would find, for a request that is refused before its lookups. */
  ghost function Posed(rows: Rows, endpoint: Arn, body: Body, letters: Letters, answers: Answers): (b: Body)
    ensures !body.NewOrder? ==> b == body
    ensures body.NewOrder? ==>
      && b.NewOrder? && b.id == body.id && b.identifiers == body.identifiers
      && OrderApproval(rows, b.reconciled, endpoint, b.identifiers, letters.lower, answers, b.approvals)
  {
    if !body.NewOrder? then body
    else body.(reconciled := rows, approvals := SomeApproval(rows, endpoint, body.identifiers, letters.lower, answers))
  }

  lemma NobodyIsServed(s: State, fold: Fold, endpoint: Arn, b: Body)
    ensures AfterBody(s, fold, endpoint, Nobody, b) == s
  {
  }

  class Server {
    var endpoints: set<Arn>
    var nonces: set<Nonce>
    var accounts: map<Url, Account>
    var bindings: map<BindingId, Binding>
    var orders: map<string, Order>
    var certificates: seq<Certificate>
    const validations: Validations
    ghost var issued: set<Nonce>
    ghost var admitted: seq<Nonce>
    ghost var createdBindings: set<BindingId>
    ghost var revokedBindings: set<BindingId>

    constructor ()
      ensures Start(Now()) && fresh(validations)
    {
      endpoints, nonces, accounts, bindings, orders, certificates := {}, {}, map[], map[], map[], [];
      issued, admitted, createdBindings, revokedBindings := {}, [], {}, {};
      validations := new Validations();
    }

    ghost function Now(): State
      reads this, validations
    {
      State(endpoints, nonces, issued, admitted, accounts, bindings, createdBindings, revokedBindings, validations.rows, orders, certificates)
    }

    /** acmIssueNonce. */
    method IssueNonce(newNonce: Nonce)
      modifies this
      ensures Now() == WithNonce(old(Now()), newNonce)
    {
      nonces := nonces + {newNonce};
      issued := issued + {newNonce};
    }

    /**
     * acmVerifyJWS: a delete that found the nonce admits the request. It is
     * served as a key exactly when it carries that key and no account and is
     * signed by it, and as an account exactly when it names it and carries no
     * key, the account is a valid one of the endpoint, and its key signed.
     */
    method VerifyJws(endpoint: Arn, jws: Jws, requireJwk: bool, allowEither: bool) returns (signer: Signer)
      modifies this
      ensures NonceAccepted(old(Now()), jws.nonce) ==>
        Now() == Admit(old(Now()), jws.nonce) && signer == SignerOf(Now(), endpoint, jws, requireJwk, allowEither)
      ensures !NonceAccepted(old(Now()), jws.nonce) ==> Now() == old(Now()) && signer == Nobody
      ensures accounts == old(accounts) && (jws.nonce != "" ==> jws.nonce !in nonces)
      ensures forall key :: signer == ByKey(key) <==>
        && jws.nonce != "" && jws.nonce in old(nonces) && jws.urlMatches && (requireJwk || allowEither)
        && jws.jwk == Some(key) && jws.kid.None? && key in jws.signedBy
      ensures forall url :: signer == ByAccount(url) <==>
        && jws.nonce != "" && jws.nonce in old(nonces) && jws.urlMatches && !requireJwk
        && jws.kid == Some(url) && jws.jwk.None?
        && url in accounts && accounts[url].endpoint == endpoint && accounts[url].status == AccountValid
        && accounts[url].thumbprint in jws.signedBy
    {
      if jws.nonce == "" || jws.nonce !in nonces {
        return Nobody;
      }
      nonces := nonces - {jws.nonce};
      admitted := admitted + [jws.nonce];
      if !jws.urlMatches {
        return Nobody;
      }
      var found, key := Nobody, "";
      if requireJwk {
        if jws.jwk.None? || jws.kid.Some? {
          return Nobody;
        }
        found, key := ByKey(jws.jwk.value), jws.jwk.value;
      } else if allowEither && jws.jwk.Some? {
        if jws.kid.Some? {
          return Nobody;
        }
        found, key := ByKey(jws.jwk.value), jws.jwk.value;
      } else {
        if jws.kid.None? || jws.jwk.Some? || jws.kid.value !in accounts {
          return Nobody;
        }
        var account := accounts[jws.kid.value];
        if account.endpoint != endpoint || account.status != AccountValid {
          return Nobody;
        }
        found, key := ByAccount(jws.kid.value), account.thumbprint;
      }
      return if key in jws.signedBy then found else Nobody;
    }

    /** acmACMENewAccount: a location that comes back is the account of the key. */
    method NewAccount(endpoint: Arn, thumbprint: Thumbprint, b: Body) returns (location: Option<Url>)
      requires b.NewAccount?
      modifies this
      ensures Now() == AfterNewAccount(old(Now()), endpoint, thumbprint, b)
      ensures location.Some? <==> HasAccount(Now(), endpoint, thumbprint)
      ensures location.Some? ==>
        location.value in accounts && accounts[location.value].endpoint == endpoint && accounts[location.value].thumbprint == thumbprint
      ensures var id := BindingId(endpoint, b.keyId);
        if && (forall url :: url in old(accounts) && old(accounts)[url].endpoint == endpoint ==> old(accounts)[url].thumbprint != thumbprint)
           && !b.onlyReturnExisting && b.contactOk && b.keyId != "" && id in old(bindings) && old(bindings)[id] == Binding(None, false) && b.bindingOk
        then
          && location == Some(b.url) && accounts == old(accounts)[b.url := Account(endpoint, id, thumbprint, AccountValid)]
          && bindings == old(bindings)[id := Binding(Some(b.url), false)]
        else accounts == old(accounts) && bindings == old(bindings)
    {
      var existing := set url | url in accounts && accounts[url].endpoint == endpoint && accounts[url].thumbprint == thumbprint;
      if existing != {} {
        var url :| url in existing;
        return Some(url);
      }
      assert !HasAccount(Now(), endpoint, thumbprint) by {
        assert forall url :: url in accounts && accounts[url].endpoint == endpoint && accounts[url].thumbprint == thumbprint ==> url in existing;
      }
      if b.onlyReturnExisting || !b.contactOk || b.keyId == "" {
        return None;
      }
      var id := BindingId(endpoint, b.keyId);
      if id !in bindings || bindings[id].revoked || bindings[id].account.Some? || !b.bindingOk {
        return None;
      }
      accounts := accounts[b.url := Account(endpoint, id, thumbprint, AccountValid)];
      bindings := bindings[id := bindings[id].(account := Some(b.url))];
      assert accounts[b.url].endpoint == endpoint && accounts[b.url].thumbprint == thumbprint;
      return Some(b.url);
    }

    /** acmACMEKeyChange, with its loop over the accounts that hold the new key, in any order. */
    method KeyChange(url: Url, b: Body) returns (ok: bool)
      requires b.KeyChange? && url in accounts
      modifies this
      ensures Now() == AfterKeyChange(old(Now()), url, b)
      ensures ok <==> b.innerOk && !KeyTaken(old(accounts), url, old(accounts)[url].endpoint, b.thumbprint)
      ensures accounts.Keys == old(accounts).Keys && forall other :: other in accounts && other != url ==> accounts[other] == old(accounts)[other]
      ensures accounts[url] == old(accounts)[url].(thumbprint := if ok then b.thumbprint else old(accounts)[url].thumbprint)
    {
      if !b.innerOk {
        return false;
      }
      var account := accounts[url];
      var candidates := set other | other in accounts && accounts[other].endpoint == account.endpoint && accounts[other].thumbprint == b.thumbprint;
      var left := candidates;
      while left != {}
        invariant left <= candidates && Now() == old(Now())
        invariant forall other :: other in candidates && other !in left ==> other == url
        decreases |left|
      {
        var candidate :| candidate in left;
        if candidate != url {
          return false;
        }
        left := left - {candidate};
      }
      assert !KeyTaken(accounts, url, account.endpoint, b.thumbprint) by {
        assert forall other ::
          other in accounts && accounts[other].endpoint == account.endpoint && accounts[other].thumbprint == b.thumbprint ==> other in candidates;
      }
      accounts := accounts[url := account.(thumbprint := b.thumbprint)];
      return true;
    }

    /** acmACMENewOrder: an order is made exactly when every identifier has a validation to approve it. */
    method NewOrder(endpoint: Arn, url: Url, id: string, identifiers: seq<string>, letters: Letters, answers: Answers)
      returns (created: bool, ghost b: Body)
      requires GoodLower(letters.lower) && OwnArns(validations.rows)
      requires '\0' !in endpoint && forall arn :: arn in validations.rows ==> '\0' !in validations.rows[arn].endpoint
      modifies this, validations
      ensures b.NewOrder? && b == Body.NewOrder(id, identifiers, validations.rows, b.approvals)
      ensures OrderApproval(old(validations.rows), validations.rows, endpoint, identifiers, letters.lower, answers, b.approvals)
      ensures Now() == AfterNewOrder(old(Now()), endpoint, url, b)
      ensures created <==>
        && identifiers != []
        && forall i :: 0 <= i < |identifiers| ==> Approvable(old(validations.rows), endpoint, identifiers[i], letters.lower, answers)
      ensures orders == if created then old(orders)[id := Order(endpoint, url, Ready, identifiers)] else old(orders)
    {
      hide Approvable, IsApproval, OnlyReconciled, GoodLower, OwnArns;
      if identifiers == [] {
        NothingReconciled(validations.rows, answers);
        return false, Body.NewOrder(id, identifiers, validations.rows, Some([]));
      }
      var approvals := validations.ApproveAll(endpoint, identifiers, letters.lower, answers);
      b := Body.NewOrder(id, identifiers, validations.rows, approvals);
      if approvals.None? {
        return false, b;
      }
      orders := orders[id := Order(endpoint, url, Ready, identifiers)];
      return true, b;
    }

    /** acmACMEFinalize. */
    method Finalize(endpoint: Arn, url: Url, b: Body, fold: Fold) returns (done: bool)
      requires b.Finalize?
      modifies this
      ensures Now() == AfterFinalize(old(Now()), fold, endpoint, url, b)
      ensures done <==>
        && b.order in old(orders) && old(orders)[b.order].endpoint == endpoint && old(orders)[b.order].account == url
        && old(orders)[b.order].status == Ready && b.csrOk && MatchesOrder(b.csr, old(orders)[b.order].identifiers, fold)
      ensures if done then
          && certificates == old(certificates) + [Certificate(b.order, b.csr, old(orders)[b.order].identifiers)]
          && orders == old(orders)[b.order := Order(endpoint, url, Finished, old(orders)[b.order].identifiers)]
        else certificates == old(certificates) && orders == old(orders)
    {
      if b.order !in orders || orders[b.order].endpoint != endpoint || orders[b.order].account != url {
        return false;
      }
      var order := orders[b.order];
      if order.status != Ready || !b.csrOk || !MatchesOrder(b.csr, order.identifiers, fold) {
        return false;
      }
      certificates := certificates + [Certificate(b.order, b.csr, order.identifiers)];
      orders := orders[b.order := order.(status := Finished)];
      return true;
    }
  
    /** acmACMEAccount: only the caller's account changes, only to be closed, and a closed one is not reopened. */
    method UpdateAccount(url: Url, deactivate: bool, ghost fold: Fold)
      requires url in accounts
      modifies this
      ensures accounts.Keys == old(accounts).Keys && (deactivate ==> accounts[url].status != AccountValid)
      ensures forall a :: a in accounts ==> Keeps(old(accounts)[a], accounts[a]) && (a != url ==> accounts[a] == old(accounts)[a])
      ensures Now() == AfterBody(old(Now()), fold, old(accounts)[url].endpoint, ByAccount(url), Body.UpdateAccount(deactivate))
    {
      if deactivate {
        accounts := accounts[url := accounts[url].(status := Deactivated)];
      }
    }

    /** The handler of the resource, for a caller that was named; `b` is the body with what its lookups found. */
    method Serve(endpoint: Arn, signer: Signer, body: Body, letters: Letters, answers: Answers) returns (ghost b: Body)
      requires GoodLower(letters.lower) && OwnArns(validations.rows)
      requires '\0' !in endpoint && forall arn :: arn in validations.rows ==> '\0' !in validations.rows[arn].endpoint
      requires signer.ByAccount? ==> signer.url in accounts && accounts[signer.url].endpoint == endpoint
      modifies this, validations
      ensures Now() == AfterBody(old(Now()), letters.fold, endpoint, signer, b)
      ensures !body.NewOrder? ==> b == body
      ensures body.NewOrder? ==>
        && b.NewOrder? && b.id == body.id && b.identifiers == body.identifiers
        && OrderApproval(old(validations.rows), b.reconciled, endpoint, body.identifiers, letters.lower, answers, b.approvals)
    {
      hide OrderApproval, GoodLower, OwnArns, AfterNewAccount, AfterKeyChange, AfterNewOrder, AfterFinalize;
      b := Posed(validations.rows, endpoint, body, letters, answers);
      match signer
      case Nobody =>
      case ByKey(thumbprint) =>
        if body.NewAccount? {
          var location := NewAccount(endpoint, thumbprint, body);
        }
      case ByAccount(url) =>
        match body {
          case NewOrder(id, identifiers, _, _) =>
            var created;
            created, b := NewOrder(endpoint, url, id, identifiers, letters, answers);
          case UpdateAccount(deactivate) => UpdateAccount(url, deactivate, letters.fold);
          case Finalize(_, _, _) => var done := Finalize(endpoint, url, body, letters.fold);
          case KeyChange(_, _) => var changed := KeyChange(url, body);
          case _ =>
        }
    }

    /**
     * handleACMEDataPlane on a POST. A body comes in without what looking its
     * identifiers up will find; `req` is the request with that filled in, and
     * the new state is the step of that request.
     */
    method Post(endpoint: Arn, newNonce: Nonce, jws: Jws, body: Body, letters: Letters, answers: Answers) returns (ghost req: Request)
      requires GoodLower(letters.lower) && OwnArns(validations.rows)
      requires '\0' !in endpoint && forall arn :: arn in validations.rows ==> '\0' !in validations.rows[arn].endpoint
      modifies this, validations
      ensures Now() == Apply(old(Now()), letters, answers, req)
      ensures req.Data? && req == Data(endpoint, newNonce, jws, req.body)
      ensures !body.NewOrder? ==> req.body == body
      ensures body.NewOrder? ==>
        && req.body.NewOrder? && req.body.id == body.id && req.body.identifiers == body.identifiers
        && OrderApproval(old(validations.rows), req.body.reconciled, endpoint, body.identifiers, letters.lower, answers, req.body.approvals)
    {
      hide OrderApproval, GoodLower, OwnArns, AfterBody, SignerOf;
      ghost var asked := Posed(validations.rows, endpoint, body, letters, answers);
      req := Data(endpoint, newNonce, jws, asked);
      if endpoint !in endpoints {
        return;
      }
      IssueNonce(newNonce);
      var signer := VerifyJws(endpoint, jws, body.NewAccount?, body.RevokeCertificate?);
      ghost var verified := Now();
      ghost var b := Serve(endpoint, signer, body, letters, answers);
      NobodyIsServed(verified, letters.fold, endpoint, b);
      req := Data(endpoint, newNonce, jws, b);
    }
  }
}
