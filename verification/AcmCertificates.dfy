// The life of an ACM certificate, over the certificates of simulator-aws/acm.go,
// the authorities of simulator-aws/acmpca.go and the ACME issuance of
// simulator-aws/acm_acme.go. Each request is one step; DNS, clocks, mail and
// key material are inputs of a request, random identifiers are fresh.

module AcmCertificates {
  import opened Common
  import opened PrivateCas

  type CertId = string
  type Token = string

  datatype CertStatus = PendingValidation | Issued | Revoked

  datatype CertType = AmazonIssued | Private | Imported

  datatype ValidationMethod = Dns | Email | NoMethod

  /** Domain names are kept case-folded. */
  datatype DomainOption = DomainOption(domain: string, how: ValidationMethod, success: bool)

  /** `endpoint` is the ACME endpoint that issued the certificate, or "", and `row` the CA's record of a private one. */
  datatype Cert = Cert(
    kind: CertType, status: CertStatus, options: seq<DomainOption>, renewable: bool,
    endpoint: string, row: Option<RowId>, body: string)

  datatype Mail = Mail(id: CertId, domain: string)

  /** The stores, and every certificate id ever used. */
  datatype State = State(certs: map<CertId, Cert>, mails: map<Token, Mail>, cas: Cas, rows: Rows, used: set<CertId>)

  /** What the world answers during a request: the domains whose validation record stands in DNS, and whether a leaf can be minted. */
  datatype World = World(records: set<string>, mint: Option<string>)

  datatype Request =
    | RequestPublic(id: CertId, domains: seq<string>, how: ValidationMethod, tokens: seq<Token>)
    | RequestPrivate(id: CertId, row: RowId, made: bool, parsed: bool, body: string)
    | Describe(id: CertId, world: World)
    | OpenLink(token: Token, expired: bool, world: World)
    | Resend(id: CertId, domain: string, sameValidationDomain: bool, tokens: seq<Token>)
    | Renew(id: CertId, world: World)
    | Revoke(id: CertId, crlOk: bool)
    | ImportCert(id: CertId, again: bool, ok: bool, body: string)
    | DeleteCert(id: CertId, inUse: bool)
    | AcmeIssue(id: CertId, endpoint: string, body: string)
    | AcmeRevoke(id: CertId, endpoint: string, body: string, authorized: bool)
    | CaCreate(ca: Id, key: Key)
    | CaServe(ca: Id, req: CaRequest)
    | CaIssue(row: RowId, rootTemplate: bool, made: bool)
    | CaRevoke(row: RowId)

  // Validation.

  predicate AllAtSuccess(options: seq<DomainOption>) {
    forall i :: 0 <= i < |options| ==> options[i].success
  }

  /** An option that has succeeded or whose DNS record stands. */
  predicate Succeeds(option: DomainOption, world: World) {
    option.success || (option.how == Dns && option.domain in world.records)
  }

  function AllSucceeded(options: seq<DomainOption>): (r: seq<DomainOption>)
    ensures |r| == |options| && AllAtSuccess(r)
  {
    seq(|options|, i requires 0 <= i < |options| => options[i].(success := true))
  }

  /** acmReconcileIssuance: a pending certificate is issued once every option succeeds and a leaf is minted. */
  predicate Issuable(cert: Cert, world: World) {
    && cert.kind == AmazonIssued && cert.status == PendingValidation && world.mint.Some?
    && forall i :: 0 <= i < |cert.options| ==> Succeeds(cert.options[i], world)
  }

  function IssuedNow(cert: Cert, world: World): (r: Cert)
    requires world.mint.Some?
  {
    cert.(options := AllSucceeded(cert.options), status := Issued, renewable := true, body := world.mint.value)
  }

  /** The store after reconciling `cert` for id; nothing is written unless it is issued. */
  function Reconcile(s: State, id: CertId, cert: Cert, world: World): (s': State) {
    if Issuable(cert, world) then s.(certs := s.certs[id := IssuedNow(cert, world)]) else s
  }

  // Mail.

  predicate Concerns(option: DomainOption, domain: string) {
    option.domain == domain && option.how == Email
  }

  function Confirmed(options: seq<DomainOption>, domain: string): (r: seq<DomainOption>) {
    seq(|options|, i requires 0 <= i < |options| => if Concerns(options[i], domain) then options[i].(success := true) else options[i])
  }

  /** One mail for each EMAIL option from k on, each with its own token. */
  function Mailed(mails: map<Token, Mail>, id: CertId, options: seq<DomainOption>, tokens: seq<Token>, k: nat): (r: map<Token, Mail>)
    requires |tokens| == |options|
    decreases |options| - k
  {
    if k >= |options| then mails
    else Mailed(if options[k].how == Email then mails[tokens[k] := Mail(id, options[k].domain)] else mails, id, options, tokens, k + 1)
  }

  // The handlers.

  function NewOptions(domains: seq<string>, how: ValidationMethod): (r: seq<DomainOption>)
    ensures |r| == |domains|
  {
    seq(|domains|, i requires 0 <= i < |domains| => DomainOption(domains[i], how, false))
  }

  function AfterOpenLink(s: State, token: Token, expired: bool, world: World): (s': State) {
    if token !in s.mails || expired || s.mails[token].id !in s.certs then s
    else
      var id, domain := s.mails[token].id, s.mails[token].domain;
      var cert := s.certs[id];
      if !exists i :: 0 <= i < |cert.options| && Concerns(cert.options[i], domain) then s
      else
        var confirmed := cert.(options := Confirmed(cert.options, domain));
        Reconcile(s.(certs := s.certs[id := confirmed], mails := s.mails - {token}), id, confirmed, world)
  }

  predicate Renewable(cert: Cert) {
    cert.kind == AmazonIssued && cert.status == Issued && cert.renewable && cert.endpoint == ""
  }

  function AfterRevoke(s: State, id: CertId, crlOk: bool): (s': State) {
    if id !in s.certs || s.certs[id].kind != Private || s.certs[id].row.None? then s
    else
      var row := s.certs[id].row.value;
      var atCa := s.(rows := RevokedRows(s.rows, row));
      if RevocationAnswer(s.cas, s.rows, row, crlOk) != Done then atCa
      else atCa.(certs := s.certs[id := s.certs[id].(status := Revoked)])
  }

  function AfterRequestPrivate(s: State, id: CertId, row: RowId, made: bool, parsed: bool, body: string): (s': State) {
    if row.ca !in s.cas || s.cas[row.ca].status != Active || !made then s
    else
      var atCa := s.(rows := s.rows[row := RowIssued]);
      if !parsed then atCa
      else atCa.(certs := s.certs[id := Cert(Private, Issued, [], true, "", Some(row), body)], used := s.used + {id})
  }

  function Apply(s: State, req: Request): (s': State)
    requires WellFormed(s, req)
  {
    match req
    case RequestPublic(id, domains, how, tokens) =>
      if domains == [] || domains[0] == "" then s
      else
        var options := NewOptions(domains, how);
        s.(certs := s.certs[id := Cert(AmazonIssued, PendingValidation, options, false, "", None, "")],
           used := s.used + {id}, mails := Mailed(s.mails, id, options, tokens, 0))
    case RequestPrivate(id, row, made, parsed, body) => AfterRequestPrivate(s, id, row, made, parsed, body)
    case Describe(id, world) => if id in s.certs then Reconcile(s, id, s.certs[id], world) else s
    case OpenLink(token, expired, world) => AfterOpenLink(s, token, expired, world)
    case Resend(id, domain, same, tokens) =>
      if id !in s.certs || s.certs[id].status != PendingValidation then s
      else if !same || !exists i :: 0 <= i < |s.certs[id].options| && Concerns(s.certs[id].options[i], domain) then s
      else s.(mails := Mailed(s.mails, id, s.certs[id].options, tokens, 0))
    case Renew(id, world) =>
      if id in s.certs && Renewable(s.certs[id]) then Reconcile(s, id, s.certs[id].(status := PendingValidation), world) else s
    case Revoke(id, crlOk) => AfterRevoke(s, id, crlOk)
    case ImportCert(id, again, ok, body) =>
      if !ok || (again && (id !in s.certs || s.certs[id].kind != Imported)) then s
      else s.(certs := s.certs[id := Cert(Imported, Issued, [], false, "", None, body)], used := s.used + {id})
    case DeleteCert(id, inUse) => if inUse then s else s.(certs := s.certs - {id})
    case AcmeIssue(id, endpoint, body) =>
      s.(certs := s.certs[id := Cert(AmazonIssued, Issued, [], false, endpoint, None, body)], used := s.used + {id})
    case AcmeRevoke(id, endpoint, body, authorized) =>
      if id !in s.certs || s.certs[id].body != body || s.certs[id].endpoint != endpoint || !authorized then s
      else s.(certs := s.certs[id := s.certs[id].(status := Revoked)])
    case CaCreate(ca, key) => s.(cas := s.cas[ca := NewCa(key)])
    case CaServe(ca, r) => if ca in s.cas then s.(cas := s.cas[ca := After(s.cas[ca], r)]) else s
    case CaIssue(row, rootTemplate, made) =>
      if row.ca in s.cas && MayIssue(s.cas[row.ca], rootTemplate) && made then s.(rows := s.rows[row := RowIssued]) else s
    case CaRevoke(row) => s.(rows := RevokedRows(s.rows, row))
  }

  predicate WellFormed(s: State, req: Request) {
    match req
    case RequestPublic(_, domains, _, tokens) => |tokens| == |domains|
    case Resend(id, _, _, tokens) => id in s.certs ==> |tokens| == |s.certs[id].options|
    case _ => true
  }

  /** Random identifiers are fresh; an ACME endpoint has a name. */
  predicate Possible(s: State, req: Request) {
    && WellFormed(s, req)
    && match req
       case RequestPublic(id, _, _, _) => id !in s.used
       case RequestPrivate(id, row, _, _, _) => id !in s.used && row !in s.rows
       case ImportCert(id, again, _, _) => !again ==> id !in s.used
       case AcmeIssue(id, endpoint, _) => id !in s.used && endpoint != ""
       case AcmeRevoke(_, endpoint, _, _) => endpoint != ""
       case CaCreate(ca, _) => ca !in s.cas
       case CaIssue(row, _, _) => row !in s.rows
       case _ => true
  }

  ghost predicate Run(states: seq<State>, requests: seq<Request>) {
    && |states| == |requests| + 1 && states[0] == State(map[], map[], map[], map[], {})
    && forall i :: 0 <= i < |requests| ==> Possible(states[i], requests[i]) && states[i + 1] == Apply(states[i], requests[i])
  }

  // The invariant, certificate by certificate.

  /** What holds of one certificate, given the rows of the CAs. */
  ghost predicate CertOk(cert: Cert, rows: Rows) {
    && (cert.status == Issued ==> AllAtSuccess(cert.options))
    && (cert.status == Revoked ==> cert.kind == Private || (cert.kind == AmazonIssued && cert.endpoint != ""))
    && (cert.kind == Imported ==> cert.status == Issued && cert.options == [])
    && (cert.endpoint != "" ==> cert.kind == AmazonIssued && cert.status != PendingValidation)
    && (cert.kind == Private ==> cert.status != PendingValidation && cert.row.Some? && cert.row.value in rows)
    && (cert.kind == Private && cert.status == Revoked ==> rows[cert.row.value] == RowRevoked)
  }

  ghost predicate CertsOk(s: State) {
    && s.certs.Keys <= s.used
    && forall id :: id in s.certs ==> CertOk(s.certs[id], s.rows)
  }

  /** No two certificates have the same record at a CA. */
  ghost predicate RowsApart(s: State) {
    forall a, b :: a in s.certs && b in s.certs && a != b && s.certs[a].row.Some? ==> s.certs[a].row != s.certs[b].row
  }

  ghost predicate RowsExist(s: State) {
    forall id :: id in s.certs && s.certs[id].row.Some? ==> s.certs[id].row.value in s.rows
  }

  ghost predicate CasOk(s: State) {
    forall ca :: ca in s.cas ==> CaOk(s.cas[ca])
  }

  /** Every record has its CA, and every private certificate one that is certified. */
  ghost predicate IssuersOk(s: State) {
    && (forall row :: row in s.rows ==> row.ca in s.cas)
    && (forall id :: id in s.certs && s.certs[id].row.Some? ==> s.certs[id].row.value.ca in s.cas && Certified(s.cas[s.certs[id].row.value.ca]))
  }

  /** A mail is about an EMAIL option of a certificate that asked for it, as long as that certificate exists. */
  ghost predicate MailOk(s: State, mail: Mail) {
    mail.id in s.used && (mail.id in s.certs ==> HasOption(s.certs[mail.id], mail.domain))
  }

  predicate HasOption(cert: Cert, domain: string) {
    exists i :: 0 <= i < |cert.options| && Concerns(cert.options[i], domain)
  }

  ghost predicate MailsOk(s: State) {
    forall token :: token in s.mails ==> MailOk(s, s.mails[token])
  }

  ghost predicate Inv(s: State) {
    CertsOk(s) && RowsExist(s) && RowsApart(s) && CasOk(s) && IssuersOk(s) && MailsOk(s)
  }

  // What one request can do.

  /** Rows are only added, and a revoked one stays revoked. */
  ghost predicate RowsLast(rows: Rows, rows': Rows) {
    forall row :: row in rows ==> row in rows' && (rows[row] == RowRevoked ==> rows'[row] == RowRevoked)
  }

  /** Reconciling and opening links touch certificates and mails alone. */
  lemma ReconcilingLeavesRecords(s: State, req: Request)
    requires req.Describe? || req.Renew? || req.OpenLink?
    requires WellFormed(s, req)
    ensures var s' := Apply(s, req); s'.rows == s.rows && s'.cas == s.cas && s'.used == s.used
  {
    hide Issuable, IssuedNow, Confirmed, Concerns, Renewable;
  }

  lemma RecordsOnlyGrow(s: State, req: Request)
    requires Possible(s, req)
    ensures RowsLast(s.rows, Apply(s, req).rows) && s.used <= Apply(s, req).used
  {
    hide Reconcile, AfterOpenLink, Mailed, NewOptions, MayIssue, RevocationAnswer, After;
    if req.Describe? || req.Renew? || req.OpenLink? {
      ReconcilingLeavesRecords(s, req);
    }
  }

  /** A request that goes through neither reconciliation nor a CA puts at most one certificate, which is as it should be. */
  lemma PutIsOk(s: State, req: Request, id: CertId)
    requires CertsOk(s) && Possible(s, req) && id in Apply(s, req).certs
    requires !req.OpenLink? && !req.Describe? && !req.Renew? && !req.Revoke? && !req.RequestPrivate?
    ensures (id in s.certs && Apply(s, req).certs[id] == s.certs[id]) || CertOk(Apply(s, req).certs[id], s.rows)
  {
    hide Mailed, After, Concerns, MayIssue, RevokedRows;
  }

  lemma RevokeIsOk(s: State, id: CertId, crlOk: bool)
    requires CertsOk(s)
    ensures var s' := AfterRevoke(s, id, crlOk);
      s'.certs == s.certs ||
      (id in s.certs && s'.certs == s.certs[id := s'.certs[id]] && CertOk(s'.certs[id], s'.rows))
  {
  }

  lemma RequestPrivateIsOk(s: State, req: Request)
    requires CertsOk(s) && Possible(s, req) && req.RequestPrivate?
    ensures var s' := AfterRequestPrivate(s, req.id, req.row, req.made, req.parsed, req.body);
      s'.certs == s.certs ||
      (req.id in s'.certs && s'.certs == s.certs[req.id := s'.certs[req.id]] && CertOk(s'.certs[req.id], s'.rows))
  {
  }

  lemma CertOkLasts(cert: Cert, rows: Rows, rows': Rows)
    requires CertOk(cert, rows) && RowsLast(rows, rows')
    ensures CertOk(cert, rows')
  {
  }

  lemma ReconciledIsOk(s: State, id: CertId, cert: Cert, world: World)
    requires CertsOk(s) && id in s.certs && (Issuable(cert, world) ==> cert.endpoint == "")
    ensures var s' := Reconcile(s, id, cert, world); id in s'.certs && CertOk(s'.certs[id], s'.rows)
  {
  }

  lemma ConfirmedIsOk(cert: Cert, rows: Rows, domain: string)
    requires CertOk(cert, rows)
    ensures CertOk(cert.(options := Confirmed(cert.options, domain)), rows)
  {
  }

  lemma OpenLinkKeepsCerts(s: State, token: Token, expired: bool, world: World, id: CertId)
    requires CertsOk(s) && id in AfterOpenLink(s, token, expired, world).certs
    ensures var s' := AfterOpenLink(s, token, expired, world); CertOk(s'.certs[id], s'.rows)
  {
    hide CertOk, Reconcile, Confirmed;
    var s' := AfterOpenLink(s, token, expired, world);
    if s' != s {
      var mail := s.mails[token];
      var cert := s.certs[mail.id];
      var confirmed := cert.(options := Confirmed(cert.options, mail.domain));
      var s1 := s.(certs := s.certs[mail.id := confirmed], mails := s.mails - {token});
      ConfirmedIsOk(cert, s.rows, mail.domain);
      ReconcileKeepsOthers(s1, mail.id, confirmed, world);
      PendingHasNoEndpoint(cert, s.rows);
      ReconciledIsOk(s1, mail.id, confirmed, world);
    }
  }

  lemma PendingHasNoEndpoint(cert: Cert, rows: Rows)
    requires CertOk(cert, rows)
    ensures cert.status == PendingValidation ==> cert.endpoint == ""
  {
  }

  lemma ReconcileKeepsOthers(s: State, id: CertId, cert: Cert, world: World)
    requires CertsOk(s) && id in s.certs
    ensures var s' := Reconcile(s, id, cert, world);
      s'.rows == s.rows && s'.certs.Keys == s.certs.Keys
      && forall other :: other in s.certs && other != id ==> CertOk(s'.certs[other], s'.rows)
  {
    hide CertOk;
    var s' := Reconcile(s, id, cert, world);
    forall other | other in s.certs && other != id
      ensures CertOk(s'.certs[other], s'.rows)
    {
      CertOkLasts(s.certs[other], s.rows, s'.rows);
    }
  }

  lemma OtherRequestsKeepCert(s: State, req: Request, id: CertId)
    requires CertsOk(s) && Possible(s, req) && id in Apply(s, req).certs
    requires !req.OpenLink?
    requires req.Describe? ==> req.id !in s.certs
    requires req.Renew? ==> req.id !in s.certs || !Renewable(s.certs[req.id])
    ensures CertOk(Apply(s, req).certs[id], Apply(s, req).rows)
  {
    hide Reconcile, AfterOpenLink, AfterRevoke, AfterRequestPrivate, Mailed, CertOk, Renewable;
    RecordsOnlyGrow(s, req);
    var s' := Apply(s, req);
    if req.Revoke? {
      RevokeIsOk(s, req.id, req.crlOk);
    } else if req.RequestPrivate? {
      RequestPrivateIsOk(s, req);
    } else if !req.Describe? && !req.Renew? && !req.Revoke? {
      PutIsOk(s, req, id);
    }
    if id in s.certs && s'.certs[id] == s.certs[id] {
      CertOkLasts(s.certs[id], s.rows, s'.rows);
    } else if !req.Revoke? && !req.RequestPrivate? {
      CertOkLasts(s'.certs[id], s.rows, s'.rows);
    }
  }

  lemma RequestKeepsCert(s: State, req: Request, id: CertId)
    requires CertsOk(s) && Possible(s, req) && id in Apply(s, req).certs
    ensures CertOk(Apply(s, req).certs[id], Apply(s, req).rows)
  {
    hide Reconcile, AfterOpenLink, AfterRevoke, AfterRequestPrivate, Mailed, CertOk;
    RecordsOnlyGrow(s, req);
    var s' := Apply(s, req);
    if req.OpenLink? {
      OpenLinkKeepsCerts(s, req.token, req.expired, req.world, id);
    } else if req.Describe? && req.id in s.certs {
      PendingHasNoEndpoint(s.certs[req.id], s.rows);
      ReconcileKeepsOthers(s, req.id, s.certs[req.id], req.world);
      ReconciledIsOk(s, req.id, s.certs[req.id], req.world);
    } else if req.Renew? && req.id in s.certs && Renewable(s.certs[req.id]) {
      var cert := s.certs[req.id].(status := PendingValidation);
      ReconcileKeepsOthers(s, req.id, cert, req.world);
      ReconciledIsOk(s, req.id, cert, req.world);
    } else {
      OtherRequestsKeepCert(s, req, id);
    }
  }

  lemma RequestKeepsCerts(s: State, req: Request)
    requires CertsOk(s) && Possible(s, req)
    ensures CertsOk(Apply(s, req))
  {
    RecordsOnlyGrow(s, req);
    IdsAreUsed(s, req);
    hide CertOk, Apply, Possible;
    forall id | id in Apply(s, req).certs
      ensures CertOk(Apply(s, req).certs[id], Apply(s, req).rows)
    {
      RequestKeepsCert(s, req, id);
    }
  }

  lemma IdsAreUsed(s: State, req: Request)
    requires CertsOk(s) && Possible(s, req)
    ensures Apply(s, req).certs.Keys <= Apply(s, req).used
  {
    hide Mailed, NewOptions, AllSucceeded, Confirmed, After, Issuable, IssuedNow, Concerns, MayIssue, RevocationAnswer, CertOk;
  }

  /** Of a certificate's row, a request changes only that of one it makes, which is new. */
  lemma RowsStay(s: State, req: Request, id: CertId)
    requires CertsOk(s) && Possible(s, req) && id in Apply(s, req).certs && Apply(s, req).certs[id].row.Some?
    ensures var row := Apply(s, req).certs[id].row;
      (id in s.certs && row == s.certs[id].row) || (req.RequestPrivate? && req.id == id && row == Some(req.row) && req.row !in s.rows)
  {
    hide Mailed, NewOptions, AllSucceeded, Confirmed, After, Issuable, Concerns, MayIssue, RevocationAnswer, CertOk;
  }

  lemma NewRowExists(s: State, req: Request)
    requires Possible(s, req) && req.RequestPrivate? && req.id in Apply(s, req).certs
    requires Apply(s, req).certs[req.id].row == Some(req.row) && (req.id in s.certs ==> s.certs[req.id].row != Some(req.row))
    ensures req.row in Apply(s, req).rows
  {
  }

  lemma RequestKeepsRows(s: State, req: Request)
    requires CertsOk(s) && RowsExist(s) && RowsApart(s) && Possible(s, req)
    ensures RowsExist(Apply(s, req)) && RowsApart(Apply(s, req))
  {
    RecordsOnlyGrow(s, req);
    hide Apply, CertOk, CertsOk;
    var s' := Apply(s, req);
    forall id | id in s'.certs && s'.certs[id].row.Some?
      ensures s'.certs[id].row.value in s'.rows
    {
      RowsStay(s, req, id);
      if id !in s.certs || s.certs[id].row != s'.certs[id].row {
        NewRowExists(s, req);
      }
    }
    forall a, b | a in s'.certs && b in s'.certs && a != b && s'.certs[a].row.Some?
      ensures s'.certs[a].row != s'.certs[b].row
    {
      RowsStay(s, req, a);
      if s'.certs[b].row.Some? {
        RowsStay(s, req, b);
      }
    }
  }

  lemma RequestKeepsCas(s: State, req: Request)
    requires CasOk(s) && Possible(s, req)
    ensures CasOk(Apply(s, req))
  {
    hide Reconcile, AfterOpenLink, AfterRevoke, AfterRequestPrivate, Mailed, NewOptions, MayIssue;
    if req.Describe? || req.Renew? || req.OpenLink? {
      ReconcilingLeavesRecords(s, req);
    } else if req.Revoke? || req.RequestPrivate? {
      CertRequestsLeaveCas(s, req);
    }
  }

  lemma CertRequestsLeaveCas(s: State, req: Request)
    requires Possible(s, req) && (req.Revoke? || req.RequestPrivate?)
    ensures Apply(s, req).cas == s.cas
  {
  }

  lemma RequestKeepsIssuers(s: State, req: Request)
    requires CertsOk(s) && CasOk(s) && IssuersOk(s) && Possible(s, req)
    ensures IssuersOk(Apply(s, req))
  {
    var s' := Apply(s, req);
    CasLast(s, req);
    NewRowsHaveCas(s, req);
    hide Apply, CertOk, CertsOk, CasOk, CaOk, Possible, Certified;
    forall id | id in s'.certs && s'.certs[id].row.Some?
      ensures s'.certs[id].row.value.ca in s'.cas && Certified(s'.cas[s'.certs[id].row.value.ca])
    {
      RowsStay(s, req, id);
      if !(id in s.certs && s'.certs[id].row == s.certs[id].row) {
        IssuerIsActive(s, req);
      }
    }
  }

  /** CAs are never removed, and stay certified. */
  lemma CasLast(s: State, req: Request)
    requires Possible(s, req)
    ensures forall ca :: ca in s.cas ==> ca in Apply(s, req).cas && (Certified(s.cas[ca]) ==> Certified(Apply(s, req).cas[ca]))
  {
    hide Reconcile, AfterOpenLink, Mailed, NewOptions, MayIssue, RevocationAnswer, After, Certified;
    if req.Describe? || req.Renew? || req.OpenLink? {
      ReconcilingLeavesRecords(s, req);
    }
    if req.CaServe? && req.ca in s.cas && Certified(s.cas[req.ca]) {
      CertifiedLasts(s.cas[req.ca], req.req);
    }
  }

  lemma CertRequestRowsHaveCas(s: State, req: Request)
    requires (forall row :: row in s.rows ==> row.ca in s.cas) && Possible(s, req) && (req.Revoke? || req.RequestPrivate?)
    ensures forall row :: row in Apply(s, req).rows ==> row.ca in Apply(s, req).cas
  {
    hide RevocationAnswer;
  }

  lemma NewRowsHaveCas(s: State, req: Request)
    requires (forall row :: row in s.rows ==> row.ca in s.cas) && Possible(s, req)
    ensures forall row :: row in Apply(s, req).rows ==> row.ca in Apply(s, req).cas
  {
    hide Reconcile, AfterOpenLink, AfterRevoke, AfterRequestPrivate, Mailed, NewOptions, MayIssue, After, Certified;
    if req.Describe? || req.Renew? || req.OpenLink? {
      ReconcilingLeavesRecords(s, req);
    } else if req.Revoke? || req.RequestPrivate? {
      CertRequestRowsHaveCas(s, req);
    }
  }

  /** A private certificate comes from an ACTIVE CA, which is certified. */
  lemma IssuerIsActive(s: State, req: Request)
    requires CasOk(s) && Possible(s, req) && req.RequestPrivate? && req.id in Apply(s, req).certs && Apply(s, req).certs[req.id].row == Some(req.row)
    requires req.id in s.certs ==> s.certs[req.id].row != Some(req.row)
    ensures req.row.ca in Apply(s, req).cas && Certified(Apply(s, req).cas[req.row.ca])
  {
  }

  /** The same domains, each validated the same way. */
  ghost predicate SameOptions(a: seq<DomainOption>, b: seq<DomainOption>) {
    |a| == |b| && forall i :: 0 <= i < |a| ==> a[i].domain == b[i].domain && a[i].how == b[i].how
  }

  lemma SameOptionsConcern(a: Cert, b: Cert, domain: string)
    requires SameOptions(a.options, b.options) && HasOption(a, domain)
    ensures HasOption(b, domain)
  {
    var i :| 0 <= i < |a.options| && Concerns(a.options[i], domain);
    assert Concerns(b.options[i], domain);
  }

  // The ways a certificate can change.

  ghost predicate Imports(cert: Cert, cert': Cert) {
    cert.kind == Imported && cert'.kind == Imported && cert'.options == [] && cert'.status == Issued
  }

  /** Options may succeed, and a pending or renewed certificate be issued; nothing else of it changes but its material. */
  ghost predicate Advances(cert: Cert, cert': Cert) {
    && cert'.kind == cert.kind && cert'.endpoint == cert.endpoint && cert'.row == cert.row && SameOptions(cert.options, cert'.options)
    && (cert'.status == cert.status || (cert.kind == AmazonIssued && cert.status != Revoked && cert'.status == Issued))
  }

  ghost predicate Revokes(s: State, req: Request, id: CertId, cert: Cert, cert': Cert) {
    && cert' == cert.(status := Revoked)
    && (|| (req.AcmeRevoke? && cert.endpoint != "")
        || (req.Revoke? && req.id == id && cert.kind == Private && cert.row.Some? && cert.row.value in s.rows
            && s.rows[cert.row.value] == RowIssued))
  }

  /** What a request can have made of certificate id. */
  ghost predicate Changes(s: State, req: Request, id: CertId, cert': Cert) {
    || id !in s.used
    || (id in s.certs && (|| Advances(s.certs[id], cert') || Imports(s.certs[id], cert') || Revokes(s, req, id, s.certs[id], cert')))
  }

  lemma StayingIsAdvancing(cert: Cert)
    ensures Advances(cert, cert)
  {
  }

  lemma PutChanges(s: State, req: Request, id: CertId)
    requires CertsOk(s) && Possible(s, req) && id in Apply(s, req).certs
    requires !req.OpenLink? && !req.Describe? && !req.Renew? && !req.Revoke? && !req.RequestPrivate?
    ensures Changes(s, req, id, Apply(s, req).certs[id])
  {
    hide Mailed, NewOptions, After, HasOption, MayIssue, RevokedRows, CertOk, Advances;
    if id in s.certs {
      StayingIsAdvancing(s.certs[id]);
    }
  }

  lemma RevokeChanges(s: State, req: Request, id: CertId)
    requires CertsOk(s) && req.Revoke? && id in AfterRevoke(s, req.id, req.crlOk).certs
    ensures Changes(s, req, id, AfterRevoke(s, req.id, req.crlOk).certs[id])
  {
    hide CertOk, Advances;
    if id in s.certs {
      StayingIsAdvancing(s.certs[id]);
    }
  }

  lemma RequestPrivateChanges(s: State, req: Request, id: CertId)
    requires CertsOk(s) && Possible(s, req) && req.RequestPrivate?
    requires id in AfterRequestPrivate(s, req.id, req.row, req.made, req.parsed, req.body).certs
    ensures Changes(s, req, id, AfterRequestPrivate(s, req.id, req.row, req.made, req.parsed, req.body).certs[id])
  {
    hide CertOk, Advances;
    if id in s.certs {
      StayingIsAdvancing(s.certs[id]);
    }
  }

  /** Reconciling a certificate as it stands, with options confirmed or put back to pending for a renewal, advances it. */
  lemma ReconcileAdvances(s: State, id: CertId, cert: Cert, world: World, was: Cert)
    requires id in s.certs && Advances(was, s.certs[id]) && SameOptions(was.options, cert.options)
    requires cert.kind == was.kind && cert.endpoint == was.endpoint && cert.row == was.row && was.status != Revoked
    ensures var s' := Reconcile(s, id, cert, world); s'.certs.Keys == s.certs.Keys && Advances(was, s'.certs[id])
    ensures forall other :: other in s.certs && other != id ==> Reconcile(s, id, cert, world).certs[other] == s.certs[other]
  {
  }

  lemma ReconcileNeedsPending(s: State, id: CertId, cert: Cert, world: World)
    ensures cert.status != PendingValidation ==> Reconcile(s, id, cert, world) == s
  {
  }

  lemma DescribeChanges(s: State, req: Request, id: CertId)
    requires (req.Describe? || req.Renew?) && id in s.certs && req.id in s.certs
    ensures var cert := s.certs[req.id];
      var cert' := if req.Renew? then cert.(status := PendingValidation) else cert;
      var s' := Reconcile(s, req.id, cert', req.world);
      cert.status != Revoked ==> s'.certs.Keys == s.certs.Keys && Advances(s.certs[id], s'.certs[id])
  {
    hide Reconcile;
    var cert := s.certs[req.id];
    var cert' := if req.Renew? then cert.(status := PendingValidation) else cert;
    StayingIsAdvancing(cert);
    StayingIsAdvancing(s.certs[id]);
    if cert.status != Revoked {
      ReconcileAdvances(s, req.id, cert', req.world, cert);
    }
  }

  lemma ConfirmedAdvances(cert: Cert, domain: string)
    ensures Advances(cert, cert.(options := Confirmed(cert.options, domain)))
  {
  }

  lemma OpenLinkChanges(s: State, req: Request, id: CertId)
    requires req.OpenLink? && id in AfterOpenLink(s, req.token, req.expired, req.world).certs
    ensures id in s.certs && Advances(s.certs[id], AfterOpenLink(s, req.token, req.expired, req.world).certs[id])
  {
    hide Reconcile, Confirmed, Advances, Concerns;
    if id in s.certs {
      StayingIsAdvancing(s.certs[id]);
    }
    if req.token in s.mails && s.mails[req.token].id in s.certs {
      var mail := s.mails[req.token];
      var cert := s.certs[mail.id];
      var confirmed := cert.(options := Confirmed(cert.options, mail.domain));
      var s1 := s.(certs := s.certs[mail.id := confirmed], mails := s.mails - {req.token});
      ConfirmedAdvances(cert, mail.domain);
      ReconcileConfirmed(s1, mail.id, confirmed, req.world, cert);
    }
  }

  lemma ReconcileConfirmed(s: State, id: CertId, cert: Cert, world: World, was: Cert)
    requires id in s.certs && s.certs[id] == cert && Advances(was, cert)
    ensures var s' := Reconcile(s, id, cert, world); s'.certs.Keys == s.certs.Keys && Advances(was, s'.certs[id])
    ensures forall other :: other in s.certs && other != id ==> Reconcile(s, id, cert, world).certs[other] == s.certs[other]
  {
  }

  /** Every request changes a certificate in one of those ways. */
  lemma CertChanges(s: State, req: Request, id: CertId)
    requires CertsOk(s) && Possible(s, req) && id in Apply(s, req).certs
    ensures Changes(s, req, id, Apply(s, req).certs[id])
  {
    hide CertOk, Advances, Imports, Revokes, Reconcile, AfterOpenLink, AfterRevoke, AfterRequestPrivate;
    hide Mailed, NewOptions, After, MayIssue, RevokedRows;
    if req.OpenLink? {
      OpenLinkChanges(s, req, id);
    } else if req.Revoke? {
      RevokeChanges(s, req, id);
    } else if req.RequestPrivate? {
      RequestPrivateChanges(s, req, id);
    } else if !req.Describe? && !req.Renew? {
      PutChanges(s, req, id);
    } else {
      DescribeOrRenewChanges(s, req, id);
    }
  }

  lemma DescribeOrRenewChanges(s: State, req: Request, id: CertId)
    requires (req.Describe? || req.Renew?) && Possible(s, req) && id in Apply(s, req).certs
    ensures id in s.certs && Advances(s.certs[id], Apply(s, req).certs[id])
  {
    hide Advances, Reconcile, AfterOpenLink, AfterRevoke, AfterRequestPrivate, Mailed, After;
    if id in s.certs {
      StayingIsAdvancing(s.certs[id]);
    }
    if req.id in s.certs {
      var cert := s.certs[req.id];
      ReconcileAddsNone(s, req.id, cert, req.world);
      ReconcileAddsNone(s, req.id, cert.(status := PendingValidation), req.world);
      ReconcileNeedsPending(s, req.id, cert, req.world);
      if id in s.certs {
        DescribeChanges(s, req, id);
      }
    }
  }

  lemma ReconcileAddsNone(s: State, id: CertId, cert: Cert, world: World)
    requires id in s.certs
    ensures Reconcile(s, id, cert, world).certs.Keys == s.certs.Keys
  {
  }

  /** A certificate keeps the domains and methods of its options for life. */
  lemma OptionsStay(s: State, req: Request, id: CertId)
    requires CertsOk(s) && Possible(s, req) && id in s.used && id in Apply(s, req).certs
    ensures id in s.certs && SameOptions(s.certs[id].options, Apply(s, req).certs[id].options)
  {
    hide Apply;
    CertChanges(s, req, id);
  }

  /** Mails sent for a certificate are about its own EMAIL options. */
  lemma {:induction false} MailedConcernOptions(mails: map<Token, Mail>, id: CertId, cert: Cert, tokens: seq<Token>, k: nat)
    requires |tokens| == |cert.options|
    ensures var mails' := Mailed(mails, id, cert.options, tokens, k);
      forall token :: token in mails' ==>
        || (token in mails && mails'[token] == mails[token])
        || (mails'[token].id == id && HasOption(cert, mails'[token].domain))
    decreases |cert.options| - k
  {
    if k < |cert.options| {
      assert cert.options[k].how == Email ==> Concerns(cert.options[k], cert.options[k].domain);
      var more := if cert.options[k].how == Email then mails[tokens[k] := Mail(id, cert.options[k].domain)] else mails;
      MailedConcernOptions(more, id, cert, tokens, k + 1);
    }
  }

  /** A mail that is there after a request was there before, or is about an option of a certificate that exists. */
  lemma NewMails(s: State, req: Request, token: Token)
    requires Possible(s, req) && token in Apply(s, req).mails
    ensures var mail := Apply(s, req).mails[token]; var s' := Apply(s, req);
      (token in s.mails && mail == s.mails[token]) || (mail.id in s'.used && mail.id in s'.certs && HasOption(s'.certs[mail.id], mail.domain))
      || (mail.id in s.certs && HasOption(s.certs[mail.id], mail.domain))
  {
    hide NewOptions, AllSucceeded, Confirmed, Issuable, Concerns, MayIssue, RevocationAnswer, After, Mailed, HasOption;
    if req.RequestPublic? {
      var options := NewOptions(req.domains, req.how);
      MailedConcernOptions(s.mails, req.id, Cert(AmazonIssued, PendingValidation, options, false, "", None, ""), req.tokens, 0);
    } else if req.Resend? && req.id in s.certs {
      MailedConcernOptions(s.mails, req.id, s.certs[req.id], req.tokens, 0);
    }
  }

  lemma RequestKeepsMails(s: State, req: Request)
    requires CertsOk(s) && MailsOk(s) && Possible(s, req)
    ensures MailsOk(Apply(s, req))
  {
    RecordsOnlyGrow(s, req);
    hide Apply, Possible, CertOk, HasOption, SameOptions;
    var s' := Apply(s, req);
    forall token | token in s'.mails
      ensures MailOk(s', s'.mails[token])
    {
      var mail := s'.mails[token];
      NewMails(s, req, token);
      if mail.id in s.used && mail.id in s'.certs {
        OptionsStay(s, req, mail.id);
        if HasOption(s.certs[mail.id], mail.domain) {
          SameOptionsConcern(s.certs[mail.id], s'.certs[mail.id], mail.domain);
        }
      }
    }
  }

  // Over whole runs.

  lemma {:induction false} RunKeepsInv(states: seq<State>, requests: seq<Request>, n: nat)
    requires Run(states, requests) && n < |states|
    ensures Inv(states[n])
    decreases n
  {
    hide Possible, Apply, CertOk, CaOk;
    if n > 0 {
      RunKeepsInv(states, requests, n - 1);
      RequestKeepsCerts(states[n - 1], requests[n - 1]);
      RequestKeepsRows(states[n - 1], requests[n - 1]);
      RequestKeepsCas(states[n - 1], requests[n - 1]);
      RequestKeepsIssuers(states[n - 1], requests[n - 1]);
      RequestKeepsMails(states[n - 1], requests[n - 1]);
    }
  }

  // What an option at SUCCESS rests on.

  /** The certificate a request reconciles, if any. */
  predicate Reconciles(s: State, req: Request, id: CertId) {
    || ((req.Describe? || req.Renew?) && req.id == id)
    || (req.OpenLink? && req.token in s.mails && s.mails[req.token].id == id)
  }

  /**
   * The request shows control of the option's domain for the certificate: an
   * unexpired link that was mailed about both is opened, or the certificate is
   * reconciled while the domain's validation record stands in DNS.
   */
  predicate Shows(s: State, req: Request, id: CertId, option: DomainOption) {
    match option.how
    case Email => req.OpenLink? && !req.expired && req.token in s.mails && s.mails[req.token] == Mail(id, option.domain)
    case Dns => Reconciles(s, req, id) && option.domain in req.world.records
    case NoMethod => false
  }

  /** The option was at SUCCESS before, or the request shows it. */
  ghost predicate Earned(s: State, req: Request, s': State, id: CertId, i: nat)
    requires id in s'.certs && i < |s'.certs[id].options|
  {
    s'.certs[id].options[i].success ==>
      || (id in s.certs && i < |s.certs[id].options| && s.certs[id].options[i] == s'.certs[id].options[i])
      || Shows(s, req, id, s'.certs[id].options[i])
  }

  lemma OpenLinkEarns(s: State, req: Request, id: CertId, i: nat)
    requires req.OpenLink? && id in AfterOpenLink(s, req.token, req.expired, req.world).certs
    requires i < |AfterOpenLink(s, req.token, req.expired, req.world).certs[id].options|
    ensures Earned(s, req, AfterOpenLink(s, req.token, req.expired, req.world), id, i)
  {
  }

  lemma CaRequestsEarn(s: State, req: Request, id: CertId, i: nat)
    requires Possible(s, req) && (req.Revoke? || req.RequestPrivate?)
    requires id in Apply(s, req).certs && i < |Apply(s, req).certs[id].options|
    ensures Earned(s, req, Apply(s, req), id, i)
  {
    hide RevocationAnswer, RevokedRows, Shows;
  }

  lemma OtherRequestsEarn(s: State, req: Request, id: CertId, i: nat)
    requires Possible(s, req) && !req.OpenLink? && !req.Describe? && !req.Renew?
    requires id in Apply(s, req).certs && i < |Apply(s, req).certs[id].options|
    ensures Earned(s, req, Apply(s, req), id, i)
  {
    hide Mailed, After, Concerns, MayIssue, RevokedRows, Shows, Reconcile, AfterOpenLink, AfterRevoke, AfterRequestPrivate;
    if req.Revoke? || req.RequestPrivate? {
      CaRequestsEarn(s, req, id, i);
    }
  }

  lemma SuccessIsEarned(s: State, req: Request, id: CertId, i: nat)
    requires Possible(s, req) && id in Apply(s, req).certs && i < |Apply(s, req).certs[id].options|
    ensures Earned(s, req, Apply(s, req), id, i)
  {
    hide Mailed, AfterOpenLink, AfterRevoke, AfterRequestPrivate;
    if req.OpenLink? {
      OpenLinkEarns(s, req, id, i);
    } else if !req.Describe? && !req.Renew? {
      OtherRequestsEarn(s, req, id, i);
    }
  }

  /** An option at SUCCESS has a request m before that showed control of its domain for its certificate. */
  lemma {:induction false} SuccessWasShown(states: seq<State>, requests: seq<Request>, n: nat, id: CertId, i: nat) returns (m: nat)
    requires Run(states, requests) && n < |states| && id in states[n].certs
    requires i < |states[n].certs[id].options| && states[n].certs[id].options[i].success
    ensures m < n && Shows(states[m], requests[m], id, states[n].certs[id].options[i])
    decreases n
  {
    hide Possible, Apply, Shows;
    SuccessIsEarned(states[n - 1], requests[n - 1], id, i);
    if Shows(states[n - 1], requests[n - 1], id, states[n].certs[id].options[i]) {
      m := n - 1;
    } else {
      m := SuccessWasShown(states, requests, n - 1, id, i);
    }
  }

  /**
   * An ISSUED certificate has every validation at SUCCESS, and for each of them
   * there is an earlier request of the run that showed control of the domain
   * for this certificate.
   */
  lemma IssuedMeansValidated(states: seq<State>, requests: seq<Request>, n: nat, id: CertId, i: nat) returns (m: nat)
    requires Run(states, requests) && n < |states| && id in states[n].certs && states[n].certs[id].status == Issued
    requires i < |states[n].certs[id].options|
    ensures states[n].certs[id].options[i].success
    ensures m < n && Shows(states[m], requests[m], id, states[n].certs[id].options[i])
  {
    RunKeepsInv(states, requests, n);
    m := SuccessWasShown(states, requests, n, id, i);
  }

  /** A REVOKED private certificate is REVOKED at its CA, in a record that is its own; no imported certificate is ever REVOKED. */
  lemma RevokedMeansRevokedAtTheCa(states: seq<State>, requests: seq<Request>, n: nat, id: CertId)
    requires Run(states, requests) && n < |states| && id in states[n].certs && states[n].certs[id].status == Revoked
    ensures var cert := states[n].certs[id];
      && cert.kind != Imported
      && (cert.kind == Private ==> cert.row.Some? && cert.row.value in states[n].rows && states[n].rows[cert.row.value] == RowRevoked)
      && (cert.row.Some? ==> forall other :: other in states[n].certs && other != id ==> states[n].certs[other].row != cert.row)
  {
    RunKeepsInv(states, requests, n);
  }

  lemma UsableAuthoritiesAreCertified(states: seq<State>, requests: seq<Request>, n: nat, ca: Id)
    requires Run(states, requests) && n < |states| && ca in states[n].cas && states[n].cas[ca].status in {Active, Disabled}
    ensures Certified(states[n].cas[ca])
  {
    RunKeepsInv(states, requests, n);
  }

  /** Every private certificate has its record at a certified CA. */
  lemma PrivateCertificatesHaveCertifiedIssuers(states: seq<State>, requests: seq<Request>, n: nat, id: CertId)
    requires Run(states, requests) && n < |states| && id in states[n].certs && states[n].certs[id].kind == Private
    ensures var row := states[n].certs[id].row;
      row.Some? && row.value in states[n].rows && row.value.ca in states[n].cas && Certified(states[n].cas[row.value.ca])
  {
    RunKeepsInv(states, requests, n);
  }

  /** A mail link that has not expired works as long as its certificate exists: the option it is about is there. */
  lemma LinksWorkWhileTheCertificateExists(states: seq<State>, requests: seq<Request>, n: nat, token: Token)
    requires Run(states, requests) && n < |states| && token in states[n].mails && states[n].mails[token].id in states[n].certs
    ensures HasOption(states[n].certs[states[n].mails[token].id], states[n].mails[token].domain)
  {
    RunKeepsInv(states, requests, n);
    assert MailOk(states[n], states[n].mails[token]);
  }

  /** The certificate is revoked, or deleted for good. */
  ghost predicate RevokedOrGone(s: State, id: CertId) {
    id in s.used && (id in s.certs ==> s.certs[id].status == Revoked)
  }

  lemma RevokedStays(s: State, req: Request, id: CertId)
    requires CertsOk(s) && Possible(s, req) && RevokedOrGone(s, id)
    ensures RevokedOrGone(Apply(s, req), id)
  {
    hide Apply, SameOptions;
    RecordsOnlyGrow(s, req);
    if id in Apply(s, req).certs {
      CertChanges(s, req, id);
    }
  }

  /** REVOKED is left only by deletion, and no later certificate takes the id. */
  lemma {:induction false} RevokedIsFinal(states: seq<State>, requests: seq<Request>, m: nat, n: nat, id: CertId)
    requires Run(states, requests) && m <= n < |states| && id in states[m].certs && states[m].certs[id].status == Revoked
    ensures RevokedOrGone(states[n], id)
    decreases n
  {
    hide Possible, Apply, CertOk;
    if n == m {
      RunKeepsInv(states, requests, n);
    } else {
      RevokedIsFinal(states, requests, m, n - 1, id);
      RunKeepsInv(states, requests, n - 1);
      RevokedStays(states[n - 1], requests[n - 1], id);
    }
  }

  /** The certificate is private, ISSUED here and REVOKED at its CA, or deleted for good. */
  ghost predicate StuckOrGone(s: State, id: CertId) {
    && id in s.used
    && (id in s.certs ==>
          && s.certs[id].kind == Private && s.certs[id].status == Issued
          && s.certs[id].row.Some? && s.certs[id].row.value in s.rows && s.rows[s.certs[id].row.value] == RowRevoked)
  }

  lemma StuckStays(s: State, req: Request, id: CertId)
    requires CertsOk(s) && Possible(s, req) && StuckOrGone(s, id)
    ensures StuckOrGone(Apply(s, req), id)
  {
    hide Apply, SameOptions;
    RecordsOnlyGrow(s, req);
    if id in Apply(s, req).certs {
      CertChanges(s, req, id);
    }
  }

  /**
   * The converse of RevokedMeansRevokedAtTheCa fails for good: once a private
   * certificate is revoked at its CA while ISSUED here, no request ever makes
   * it REVOKED here.
   */
  lemma {:induction false} RevokedAtTheCaFirstIsNeverRevokedHere(states: seq<State>, requests: seq<Request>, m: nat, n: nat, id: CertId)
    requires Run(states, requests) && m <= n < |states| && id in states[m].certs
    requires states[m].certs[id].kind == Private && states[m].certs[id].status == Issued && states[m].certs[id].row.Some?
    requires states[m].certs[id].row.value in states[m].rows && states[m].rows[states[m].certs[id].row.value] == RowRevoked
    ensures StuckOrGone(states[n], id)
    decreases n
  {
    hide Possible, Apply, CertOk;
    if n == m {
      RunKeepsInv(states, requests, n);
    } else {
      RevokedAtTheCaFirstIsNeverRevokedHere(states, requests, m, n - 1, id);
      RunKeepsInv(states, requests, n - 1);
      StuckStays(states[n - 1], requests[n - 1], id);
    }
  }

  /** A revocation of a reachable private certificate takes effect here exactly when its CA had not revoked it before and could publish it. */
  lemma RevokeWorksExactlyWhen(states: seq<State>, requests: seq<Request>, n: nat, id: CertId, crlOk: bool)
    requires Run(states, requests) && n < |states| && id in states[n].certs && states[n].certs[id].kind == Private
    requires states[n].certs[id].status == Issued
    ensures var s := states[n]; var s' := Apply(s, Revoke(id, crlOk)); var row := s.certs[id].row;
      && row.Some? && row.value in s.rows
      && (id in s'.certs && s'.certs[id].status == Revoked <==> s.rows[row.value] == RowIssued && crlOk)
      && row.value in s'.rows && s'.rows[row.value] == RowRevoked
  {
    RunKeepsInv(states, requests, n);
  }

  /** Such a certificate is reachable: the CA's own revocation does not tell ACM. */
  lemma RevokedAtTheCaFirstIsReachable() returns (states: seq<State>, requests: seq<Request>)
    ensures Run(states, requests) && |states| == 5 && StuckOrGone(states[4], "c") && "c" in states[4].certs
  {
    hide Mailed, NewOptions, AfterOpenLink, AfterRevoke, Reconcile;
    var row := RowId("ca", "1");
    requests := [CaCreate("ca", "key"), CaServe("ca", Import(Some(X509("key", true)))),
                 RequestPrivate("c", row, true, true, "leaf"), CaRevoke(row)];
    var s0 := State(map[], map[], map[], map[], {});
    var s1 := Apply(s0, requests[0]);
    var s2 := Apply(s1, requests[1]);
    assert s2.cas["ca"].status == Active;
    var s3 := Apply(s2, requests[2]);
    var s4 := Apply(s3, requests[3]);
    states := [s0, s1, s2, s3, s4];
  }

  // The handlers over the stores they change.

  class CertificateManager {
    var certs: map<CertId, Cert>
    var mails: map<Token, Mail>
    const authorities: Authorities
    ghost var used: set<CertId>

    constructor ()
      ensures Now() == State(map[], map[], map[], map[], {}) && fresh(authorities)
    {
      certs, mails, used := map[], map[], {};
      authorities := new Authorities();
    }

    ghost function Now(): State
      reads this, authorities
    {
      State(certs, mails, authorities.cas, authorities.rows, used)
    }

    /**
     * acmReconcileIssuance: the loop gives up at the first option that does not
     * succeed. A pending Amazon certificate is issued, and stored, exactly when
     * each option has succeeded or has its DNS record and a leaf can be minted.
     */
    method ReconcileIssuance(id: CertId, cert: Cert, world: World) returns (r: Cert)
      modifies this
      ensures Now() == Reconcile(old(Now()), id, cert, world)
      ensures r == if Issuable(cert, world) then IssuedNow(cert, world) else cert
      ensures mails == old(mails)
      ensures
        if && cert.kind == AmazonIssued && cert.status == PendingValidation && world.mint.Some?
           && forall i :: 0 <= i < |cert.options| ==>
                cert.options[i].success || (cert.options[i].how == Dns && cert.options[i].domain in world.records)
        then
          && certs == old(certs)[id := r] && r == cert.(options := r.options, status := Issued, renewable := true, body := world.mint.value)
          && |r.options| == |cert.options| && forall i :: 0 <= i < |r.options| ==> r.options[i] == cert.options[i].(success := true)
        else r == cert && certs == old(certs)
    {
      if cert.kind != AmazonIssued || cert.status != PendingValidation {
        return cert;
      }
      var options := cert.options;
      var i: nat := 0;
      while i < |options|
        invariant i <= |options| == |cert.options|
        invariant forall k :: 0 <= k < i ==> Succeeds(cert.options[k], world) && options[k] == cert.options[k].(success := true)
        invariant forall k :: i <= k < |options| ==> options[k] == cert.options[k]
      {
        if !options[i].success {
          if options[i].how != Dns || options[i].domain !in world.records {
            return cert;
          }
          options := options[i := options[i].(success := true)];
        }
        i := i + 1;
      }
      if world.mint.None? {
        return cert;
      }
      assert options == AllSucceeded(cert.options);
      r := cert.(options := options, status := Issued, renewable := true, body := world.mint.value);
      certs := certs[id := r];
    }

    /** acmCreateAndSendValidationEmails, with a random token for each mail. */
    method SendMails(id: CertId, options: seq<DomainOption>, tokens: seq<Token>)
      requires |tokens| == |options|
      modifies this
      ensures Now() == old(Now()).(mails := Mailed(old(mails), id, options, tokens, 0))
    {
      var k: nat := 0;
      while k < |options|
        invariant k <= |options| && Now() == old(Now()).(mails := mails)
        invariant Mailed(mails, id, options, tokens, k) == Mailed(old(mails), id, options, tokens, 0)
      {
        if options[k].how == Email {
          mails := mails[tokens[k] := Mail(id, options[k].domain)];
        }
        k := k + 1;
      }
    }

    /** The loop of handleACMEmailValidation over the options. */
    method ConfirmOptions(before: seq<DomainOption>, domain: string) returns (options: seq<DomainOption>, found: bool)
      ensures options == Confirmed(before, domain)
      ensures found <==> exists i :: 0 <= i < |before| && Concerns(before[i], domain)
      ensures |options| == |before| && forall i :: 0 <= i < |before| && before[i].how == Email ==>
        options[i] == DomainOption(before[i].domain, Email, before[i].success || before[i].domain == domain)
    {
      options, found := before, false;
      var i: nat := 0;
      while i < |options|
        invariant i <= |options| == |before|
        invariant forall k :: 0 <= k < i ==> options[k] == Confirmed(before, domain)[k]
        invariant forall k :: i <= k < |options| ==> options[k] == before[k]
        invariant found <==> exists k :: 0 <= k < i && Concerns(before[k], domain)
      {
        if options[i].domain == domain && options[i].how == Email {
          assert Concerns(before[i], domain);
          options := options[i := options[i].(success := true)];
          found := true;
        }
        i := i + 1;
      }
      assert options == Confirmed(before, domain);
    }

    /** handleACMEmailValidation: a link that works is used up, and the EMAIL options of its domain are at success. */
    method OpenLink(token: Token, expired: bool, world: World) returns (ok: bool)
      modifies this
      ensures Now() == AfterOpenLink(old(Now()), token, expired, world)
      ensures ok <==>
        && token in old(mails) && !expired && old(mails)[token].id in old(certs)
        && exists i :: 0 <= i < |old(certs)[old(mails)[token].id].options| && Concerns(old(certs)[old(mails)[token].id].options[i], old(mails)[token].domain)
      ensures ok ==> mails == old(mails) - {token} && old(mails)[token].id in certs
      ensures ok ==>
        var mail := old(mails)[token]; var cert, cert' := old(certs)[mail.id], certs[mail.id];
        && |cert'.options| == |cert.options|
        && forall i :: 0 <= i < |cert.options| && cert.options[i].how == Email ==>
             cert'.options[i].success == (cert.options[i].success || cert.options[i].domain == mail.domain)
      ensures !ok ==> certs == old(certs) && mails == old(mails)
    {
      hide Reconcile, Issuable, IssuedNow, Confirmed, Concerns;
      if token !in mails || expired || mails[token].id !in certs {
        return false;
      }
      var id, domain := mails[token].id, mails[token].domain;
      var cert := certs[id];
      var options, found := ConfirmOptions(cert.options, domain);
      if !found {
        return false;
      }
      cert := cert.(options := options);
      certs := certs[id := cert];
      mails := mails - {token};
      var r := ReconcileIssuance(id, cert, world);
      return true;
    }

    /** handleACMRenewCertificate: renewal never leaves an ISSUED certificate pending. */
    method RenewCert(id: CertId, world: World) returns (ok: bool)
      modifies this
      ensures Now() == Apply(old(Now()), Renew(id, world))
      ensures id in old(certs) && old(certs)[id].status == Issued ==> id in certs && certs[id].status == Issued
      ensures ok ==> id in certs && world.mint.Some? && certs[id].body == world.mint.value
    {
      if id !in certs || !Renewable(certs[id]) {
        return false;
      }
      var r := ReconcileIssuance(id, certs[id].(status := PendingValidation), world);
      return r.status == Issued;
    }

    /** handleACMRevokeCertificate: the CA first, and here only when the CA reports no error. */
    method RevokeCert(id: CertId, crlOk: bool) returns (ok: bool)
      requires id in certs && certs[id].kind == Private ==> certs[id].row.Some?
      modifies this, authorities
      ensures Now() == AfterRevoke(old(Now()), id, crlOk)
      ensures ok <==>
        && id in old(certs) && old(certs)[id].kind == Private
        && var row := old(certs)[id].row.value;
           row in old(authorities.rows) && old(authorities.rows)[row] == RowIssued && (crlOk || row.ca !in old(authorities.cas))
      ensures ok ==>
        && id in certs && certs[id].status == Revoked && certs[id].row.Some?
        && certs[id].row.value in authorities.rows && authorities.rows[certs[id].row.value] == RowRevoked
    {
      if id !in certs || certs[id].kind != Private {
        return false;
      }
      var answer := authorities.Revoke(certs[id].row.value, crlOk);
      if answer != Done {
        return false;
      }
      certs := certs[id := certs[id].(status := Revoked)];
      return true;
    }

    /** handleACMRequestCertificate with a CA: the CA must be ACTIVE, and its row is written before the certificate. */
    method RequestPrivateCert(id: CertId, row: RowId, made: bool, parsed: bool, body: string) returns (ok: bool)
      requires authorities.Valid()
      modifies this, authorities
      ensures Now() == AfterRequestPrivate(old(Now()), id, row, made, parsed, body)
      ensures ok <==> row.ca in old(authorities.cas) && old(authorities.cas)[row.ca].status == Active && made && parsed
      ensures ok ==> id in certs && certs[id].status == Issued && certs[id].row == Some(row) && row in authorities.rows
      ensures ok ==> row.ca in authorities.cas && Certified(authorities.cas[row.ca])
    {
      if row.ca !in authorities.cas || authorities.cas[row.ca].status != Active {
        return false;
      }
      var issued := authorities.Issue(row, false, made);
      if !issued || !parsed {
        return false;
      }
      certs := certs[id := Cert(Private, Issued, [], true, "", Some(row), body)];
      used := used + {id};
      return true;
    }
  }
}
