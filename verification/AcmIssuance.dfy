// When an ACM certificate of simulator-aws/acm.go is issued, and that it is:
// what describing it, opening its mailed links and renewing it come to, and
// whole requests for a certificate from the first call to ISSUED.

module AcmIssuance {
  import opened Common
  import opened PrivateCas
  import opened AcmCertificates

  /** Nothing of the certificate is different but what issuing it sets. */
  ghost predicate IssuedFrom(cert: Cert, cert': Cert, body: string) {
    && cert'.status == Issued && cert'.renewable && cert'.body == body
    && cert'.kind == cert.kind && cert'.endpoint == cert.endpoint && cert'.row == cert.row
    && |cert'.options| == |cert.options|
    && forall i :: 0 <= i < |cert.options| ==> cert'.options[i] == DomainOption(cert.options[i].domain, cert.options[i].how, true)
  }

  ghost predicate OthersStay(s: State, s': State, id: CertId) {
    && s'.certs.Keys == s.certs.Keys
    && forall other :: other in s.certs && other != id ==> s'.certs[other] == s.certs[other]
  }

  /**
   * Describing a certificate issues it exactly when it is a pending Amazon one,
   * each of its options has succeeded or is a DNS option whose record stands,
   * and a leaf can be minted; otherwise it stays as it is.
   */
  lemma DescribeIssuesExactlyWhen(s: State, id: CertId, world: World)
    requires id in s.certs
    ensures var s', cert := Apply(s, Describe(id, world)), s.certs[id];
      && OthersStay(s, s', id) && s'.mails == s.mails && s'.cas == s.cas && s'.rows == s.rows
      && if && cert.kind == AmazonIssued && cert.status == PendingValidation && world.mint.Some?
            && forall i :: 0 <= i < |cert.options| ==>
                 cert.options[i].success || (cert.options[i].how == Dns && cert.options[i].domain in world.records)
         then IssuedFrom(cert, s'.certs[id], world.mint.value)
         else s'.certs[id] == cert
  {
  }

  /** What opening a link does to one option. */
  function Opened(option: DomainOption, domain: string): (r: DomainOption) {
    DomainOption(option.domain, option.how, option.success || (option.how == Email && option.domain == domain))
  }

  /** The certificate with the EMAIL options of the domain at success. */
  ghost predicate OpenedTo(cert: Cert, cert': Cert, domain: string) {
    && cert' == cert.(options := cert'.options) && |cert'.options| == |cert.options|
    && forall i :: 0 <= i < |cert.options| ==> cert'.options[i] == Opened(cert.options[i], domain)
  }

  /**
   * In every reachable state, a link that has not expired and whose certificate
   * exists is used up, brings the EMAIL options of its domain to success, and
   * issues a pending certificate exactly when each other option has succeeded or
   * is a DNS option whose record stands, and a leaf can be minted.
   */
  lemma OpenLinkIssuesExactlyWhen(states: seq<State>, requests: seq<Request>, n: nat, token: Token, expired: bool, world: World)
    requires Run(states, requests) && n < |states| && token in states[n].mails && states[n].mails[token].id in states[n].certs
    ensures var s, s', mail := states[n], Apply(states[n], OpenLink(token, expired, world)), states[n].mails[token];
      var cert := s.certs[mail.id];
      if expired then s' == s
      else
        && OthersStay(s, s', mail.id) && s'.mails == s.mails - {token}
        && (exists i :: 0 <= i < |cert.options| && cert.options[i].how == Email && cert.options[i].domain == mail.domain)
        && if && cert.kind == AmazonIssued && cert.status == PendingValidation && world.mint.Some?
              && forall i :: 0 <= i < |cert.options| ==>
                   || cert.options[i].success
                   || (cert.options[i].how == Email && cert.options[i].domain == mail.domain)
                   || (cert.options[i].how == Dns && cert.options[i].domain in world.records)
           then IssuedFrom(cert, s'.certs[mail.id], world.mint.value)
           else OpenedTo(cert, s'.certs[mail.id], mail.domain)
  {
    hide Run;
    LinksWorkWhileTheCertificateExists(states, requests, n, token);
    if !expired {
      LinkOpens(states[n], token, world);
    }
  }

  lemma ConfirmedIsOpened(cert: Cert, domain: string)
    ensures OpenedTo(cert, cert.(options := Confirmed(cert.options, domain)), domain)
  {
  }

  /** Reconciling a certificate whose link was opened, in terms of the certificate before. */
  lemma ReconcileOpened(s: State, id: CertId, cert: Cert, after: Cert, domain: string, world: World)
    requires id in s.certs && s.certs[id] == after && OpenedTo(cert, after, domain)
    ensures var s' := Reconcile(s, id, after, world);
      && OthersStay(s, s', id) && s'.mails == s.mails
      && if && cert.kind == AmazonIssued && cert.status == PendingValidation && world.mint.Some?
            && forall i :: 0 <= i < |cert.options| ==>
                 || cert.options[i].success
                 || (cert.options[i].how == Email && cert.options[i].domain == domain)
                 || (cert.options[i].how == Dns && cert.options[i].domain in world.records)
         then IssuedFrom(cert, s'.certs[id], world.mint.value)
         else s'.certs[id] == after
  {
    assert forall i :: 0 <= i < |cert.options| ==>
      (Succeeds(after.options[i], world) <==>
         || cert.options[i].success
         || (cert.options[i].how == Email && cert.options[i].domain == domain)
         || (cert.options[i].how == Dns && cert.options[i].domain in world.records));
  }

  lemma LinkOpens(s: State, token: Token, world: World)
    requires token in s.mails && s.mails[token].id in s.certs && HasOption(s.certs[s.mails[token].id], s.mails[token].domain)
    ensures var s', mail := AfterOpenLink(s, token, false, world), s.mails[token];
      var cert := s.certs[mail.id];
      && OthersStay(s, s', mail.id) && s'.mails == s.mails - {token}
      && (exists i :: 0 <= i < |cert.options| && cert.options[i].how == Email && cert.options[i].domain == mail.domain)
      && if && cert.kind == AmazonIssued && cert.status == PendingValidation && world.mint.Some?
            && forall i :: 0 <= i < |cert.options| ==>
                 || cert.options[i].success
                 || (cert.options[i].how == Email && cert.options[i].domain == mail.domain)
                 || (cert.options[i].how == Dns && cert.options[i].domain in world.records)
         then IssuedFrom(cert, s'.certs[mail.id], world.mint.value)
         else OpenedTo(cert, s'.certs[mail.id], mail.domain)
  {
    hide Reconcile, Confirmed, IssuedFrom, OpenedTo;
    var mail := s.mails[token];
    var cert := s.certs[mail.id];
    var after := cert.(options := Confirmed(cert.options, mail.domain));
    var s1 := s.(certs := s.certs[mail.id := after], mails := s.mails - {token});
    ConfirmedIsOpened(cert, mail.domain);
    ReconcileOpened(s1, mail.id, cert, after, mail.domain, world);
    var i :| 0 <= i < |cert.options| && Concerns(cert.options[i], mail.domain);
    assert cert.options[i].how == Email && cert.options[i].domain == mail.domain;
  }

  /**
   * In every reachable state a renewal replaces the material of a certificate
   * Amazon issued and keeps all else, whatever DNS holds by then, exactly when a
   * leaf can be minted; one that cannot be renewed stays as it is.
   */
  lemma RenewReplacesTheMaterial(states: seq<State>, requests: seq<Request>, n: nat, id: CertId, world: World)
    requires Run(states, requests) && n < |states| && id in states[n].certs
    ensures var s, s', cert := states[n], Apply(states[n], Renew(id, world)), states[n].certs[id];
      if cert.kind == AmazonIssued && cert.status == Issued && cert.renewable && cert.endpoint == "" && world.mint.Some?
      then s'.certs == s.certs[id := cert.(body := world.mint.value)]
      else s'.certs == s.certs
  {
    RunKeepsInv(states, requests, n);
    hide Run;
    var cert := states[n].certs[id];
    assert CertOk(cert, states[n].rows);
    if cert.status == Issued {
      SucceededAlready(cert.options);
    }
  }

  lemma SucceededAlready(options: seq<DomainOption>)
    requires AllAtSuccess(options)
    ensures AllSucceeded(options) == options
  {
  }

  // Mails.

  ghost predicate Distinct(tokens: seq<Token>) {
    forall i, j :: 0 <= i < j < |tokens| ==> tokens[i] != tokens[j]
  }

  /** Sending mails from k on leaves the tokens before k and tokens of others alone, and gives each EMAIL option its own mail. */
  lemma {:induction false} MailsReachEveryOption(mails: map<Token, Mail>, id: CertId, options: seq<DomainOption>, tokens: seq<Token>, k: nat, i: nat)
    requires |tokens| == |options| && Distinct(tokens) && i < |options| && k <= |options|
    ensures var mails' := Mailed(mails, id, options, tokens, k);
      && (i >= k && options[i].how == Email ==> tokens[i] in mails' && mails'[tokens[i]] == Mail(id, options[i].domain))
      && (i < k && tokens[i] in mails ==> tokens[i] in mails' && mails'[tokens[i]] == mails[tokens[i]])
    decreases |options| - k
  {
    if k < |options| {
      var more := if options[k].how == Email then mails[tokens[k] := Mail(id, options[k].domain)] else mails;
      MailsReachEveryOption(more, id, options, tokens, k + 1, i);
    }
  }

  // Whole requests.

  /** A new certificate waits for the validation of each of its domains, and each domain validated by mail has its mail. */
  lemma RequestedIsPending(s: State, id: CertId, domains: seq<string>, how: ValidationMethod, tokens: seq<Token>)
    requires |tokens| == |domains| && domains != [] && domains[0] != ""
    ensures var s' := Apply(s, RequestPublic(id, domains, how, tokens));
      && id in s'.certs && s'.certs == s.certs[id := s'.certs[id]]
      && var cert := s'.certs[id];
         && cert == Cert(AmazonIssued, PendingValidation, cert.options, false, "", None, "")
         && |cert.options| == |domains|
         && (forall i :: 0 <= i < |domains| ==> cert.options[i] == DomainOption(domains[i], how, false))
         && (how == Email && Distinct(tokens) ==>
               forall i :: 0 <= i < |domains| ==> tokens[i] in s'.mails && s'.mails[tokens[i]] == Mail(id, domains[i]))
  {
    hide Mailed;
    var options := NewOptions(domains, how);
    if how == Email && Distinct(tokens) {
      forall i | 0 <= i < |domains|
        ensures var mails := Mailed(s.mails, id, options, tokens, 0); tokens[i] in mails && mails[tokens[i]] == Mail(id, domains[i])
      {
        MailsReachEveryOption(s.mails, id, options, tokens, 0, i);
      }
    }
  }

  /** A certificate validated by DNS is issued, on every run, when it is described with all its records in place. */
  lemma ADnsCertificateIsIssued(states: seq<State>, requests: seq<Request>, n: nat, id: CertId, domains: seq<string>, tokens: seq<Token>, world: World)
    requires Run(states, requests) && n + 2 <= |requests|
    requires requests[n] == RequestPublic(id, domains, Dns, tokens) && domains != [] && domains[0] != ""
    requires requests[n + 1] == Describe(id, world) && world.mint.Some? && forall i :: 0 <= i < |domains| ==> domains[i] in world.records
    ensures id in states[n + 2].certs
    ensures var cert := states[n + 2].certs[id];
      && cert == Cert(AmazonIssued, Issued, cert.options, true, "", None, world.mint.value) && |cert.options| == |domains|
      && forall i :: 0 <= i < |domains| ==> cert.options[i] == DomainOption(domains[i], Dns, true)
  {
    assert Possible(states[n], requests[n]);
    hide Possible, Apply;
    RequestedIsPendingAt(states, requests, n);
    DescribeIssuesExactlyWhen(states[n + 1], id, world);
  }

  lemma RequestedIsPendingAt(states: seq<State>, requests: seq<Request>, n: nat)
    requires Run(states, requests) && n < |requests| && requests[n].RequestPublic? && requests[n].domains != [] && requests[n].domains[0] != ""
    ensures requests[n].id in states[n + 1].certs
    ensures var req := requests[n];
      && var cert := states[n + 1].certs[req.id];
         && cert == Cert(AmazonIssued, PendingValidation, cert.options, false, "", None, "")
         && |cert.options| == |req.domains| == |req.tokens|
         && (forall i :: 0 <= i < |req.domains| ==> cert.options[i] == DomainOption(req.domains[i], req.how, false))
         && (req.how == Email && Distinct(req.tokens) ==>
               forall i :: 0 <= i < |req.domains| ==>
                 req.tokens[i] in states[n + 1].mails && states[n + 1].mails[req.tokens[i]] == Mail(req.id, req.domains[i]))
  {
    assert Possible(states[n], requests[n]);
    var req := requests[n];
    hide Apply;
    RequestedIsPending(states[n], req.id, req.domains, req.how, req.tokens);
  }

  /** The options of the links before k are at success, and the certificate is issued if every option is. */
  ghost predicate OptionsOpened(cert: Cert, domains: seq<string>, k: nat)
    requires k <= |domains|
  {
    && cert.kind == AmazonIssued && |cert.options| == |domains|
    && (forall i :: 0 <= i < |domains| ==> cert.options[i].domain == domains[i] && cert.options[i].how == Email)
    && (forall i :: 0 <= i < k ==> cert.options[i].success)
    && (cert.status == Issued || (cert.status == PendingValidation && !AllAtSuccess(cert.options)))
  }

  ghost predicate LinksStand(mails: map<Token, Mail>, id: CertId, domains: seq<string>, tokens: seq<Token>, k: nat)
    requires |tokens| == |domains|
  {
    forall i :: k <= i < |domains| ==> tokens[i] in mails && mails[tokens[i]] == Mail(id, domains[i])
  }

  /** Of a certificate validated by mail the links before k have been opened, and the others still stand. */
  ghost predicate LinksOpened(s: State, id: CertId, domains: seq<string>, tokens: seq<Token>, k: nat)
    requires |tokens| == |domains| && k <= |domains|
  {
    id in s.certs && OptionsOpened(s.certs[id], domains, k) && LinksStand(s.mails, id, domains, tokens, k)
  }

  lemma LinksStillStand(mails: map<Token, Mail>, id: CertId, domains: seq<string>, tokens: seq<Token>, k: nat)
    requires |tokens| == |domains| && Distinct(tokens) && k < |domains| && LinksStand(mails, id, domains, tokens, k)
    ensures LinksStand(mails - {tokens[k]}, id, domains, tokens, k + 1)
  {
  }

  lemma IssuedIsOpened(cert: Cert, cert': Cert, domains: seq<string>, k: nat, body: string)
    requires k < |domains| && OptionsOpened(cert, domains, k) && IssuedFrom(cert, cert', body)
    ensures OptionsOpened(cert', domains, k + 1)
  {
  }

  lemma OpenedIsOpened(cert: Cert, cert': Cert, domains: seq<string>, k: nat)
    requires k < |domains| && OptionsOpened(cert, domains, k) && OpenedTo(cert, cert', domains[k])
    requires cert.status == PendingValidation ==> exists i :: 0 <= i < |cert.options| && !cert.options[i].success && cert.options[i].domain != domains[k]
    ensures OptionsOpened(cert', domains, k + 1)
  {
    if cert.status == PendingValidation {
      var i :| 0 <= i < |cert.options| && !cert.options[i].success && cert.options[i].domain != domains[k];
      assert !cert'.options[i].success;
    }
  }

  lemma AllByMail(cert: Cert, domains: seq<string>, k: nat)
    requires k <= |domains| && OptionsOpened(cert, domains, k)
    ensures cert.kind == AmazonIssued && (cert.status == Issued || cert.status == PendingValidation)
    ensures forall i :: 0 <= i < |cert.options| ==> cert.options[i].how == Email
  {
  }

  lemma OneMoreLink(states: seq<State>, requests: seq<Request>, n: nat, id: CertId, domains: seq<string>, tokens: seq<Token>, k: nat, world: World)
    requires Run(states, requests) && n < |requests| && |tokens| == |domains| && Distinct(tokens) && k < |domains|
    requires LinksOpened(states[n], id, domains, tokens, k) && requests[n] == OpenLink(tokens[k], false, world) && world.mint.Some?
    ensures LinksOpened(states[n + 1], id, domains, tokens, k + 1)
  {
    hide Possible, Apply, OptionsOpened, Distinct, IssuedFrom, OpenedTo;
    var cert := states[n].certs[id];
    AllByMail(cert, domains, k);
    OpenLinkIssuesExactlyWhen(states, requests, n, tokens[k], false, world);
    var cert' := states[n + 1].certs[id];
    LinksStillStand(states[n].mails, id, domains, tokens, k);
    if IssuedFrom(cert, cert', world.mint.value) {
      IssuedIsOpened(cert, cert', domains, k, world.mint.value);
    } else {
      OpenedIsOpened(cert, cert', domains, k);
    }
  }

  /** The requests from n on open the links one after the other, and a leaf can be minted each time. */
  ghost predicate OpensLinks(requests: seq<Request>, n: nat, tokens: seq<Token>, k: nat) {
    && n + k <= |requests| && k <= |tokens|
    && forall i :: 0 <= i < k ==> OpensLink(requests[n + i], tokens[i])
  }

  ghost predicate OpensLink(req: Request, token: Token) {
    req.OpenLink? && req.token == token && !req.expired && req.world.mint.Some?
  }

  lemma {:induction false} LinksAreOpened(states: seq<State>, requests: seq<Request>, n: nat, id: CertId, domains: seq<string>, tokens: seq<Token>, k: nat)
    requires Run(states, requests) && |tokens| == |domains| && Distinct(tokens) && OpensLinks(requests, n, tokens, k)
    requires LinksOpened(states[n], id, domains, tokens, 0)
    ensures LinksOpened(states[n + k], id, domains, tokens, k)
    decreases k
  {
    hide Run, LinksOpened, Distinct;
    assert |states| == |requests| + 1 by { StatesOf(states, requests); }
    if k > 0 {
      LinksAreOpened(states, requests, n, id, domains, tokens, k - 1);
      var last := n + (k - 1);
      assert OpensLink(requests[last], tokens[k - 1]);
      OneMoreLink(states, requests, last, id, domains, tokens, k - 1, requests[last].world);
    }
  }

  lemma StatesOf(states: seq<State>, requests: seq<Request>)
    requires Run(states, requests)
    ensures |states| == |requests| + 1
  {
  }

  /** A certificate validated by mail is issued, on every run, once every link that was mailed for it has been opened. */
  lemma AnEmailCertificateIsIssued(states: seq<State>, requests: seq<Request>, n: nat, id: CertId, domains: seq<string>, tokens: seq<Token>)
    requires Run(states, requests) && n < |requests| && Distinct(tokens)
    requires requests[n] == RequestPublic(id, domains, Email, tokens) && domains != [] && domains[0] != ""
    requires OpensLinks(requests, n + 1, tokens, |tokens|)
    ensures n + 1 + |tokens| < |states| && id in states[n + 1 + |tokens|].certs
    ensures states[n + 1 + |tokens|].certs[id].status == Issued
  {
    hide Apply, OpensLinks, Distinct, Possible;
    StatesOf(states, requests);
    RequestedIsPendingAt(states, requests, n);
    assert !states[n + 1].certs[id].options[0].success;
    LinksAreOpened(states, requests, n + 1, id, domains, tokens, |tokens|);
    InRange(requests, n + 1, tokens, |tokens|);
  }

  lemma InRange(requests: seq<Request>, n: nat, tokens: seq<Token>, k: nat)
    requires OpensLinks(requests, n, tokens, k)
    ensures n + k <= |requests|
  {
  }

  /** A certificate is imported, imported anew only over an imported one, and deleted unless it is in use. */
  lemma ImportsAndDeletionsTakeEffect(s: State, id: CertId, body: string)
    ensures Apply(s, ImportCert(id, false, true, body)).certs == s.certs[id := Cert(Imported, Issued, [], false, "", None, body)]
    ensures id in s.certs ==>
      Apply(s, ImportCert(id, true, true, body)).certs ==
        if s.certs[id].kind == Imported then s.certs[id := Cert(Imported, Issued, [], false, "", None, body)] else s.certs
    ensures Apply(s, DeleteCert(id, false)).certs == s.certs - {id} && Apply(s, DeleteCert(id, true)) == s
  {
    hide AfterOpenLink, AfterRevoke, AfterRequestPrivate, Reconcile, Mailed, NewOptions, MayIssue, After, Renewable;
  }

  /** The ACME server revokes a certificate of its endpoint with the leaf it was shown, for a caller it authorized. */
  lemma AcmeRevokesExactlyWhen(s: State, id: CertId, endpoint: string, body: string, authorized: bool)
    requires id in s.certs
    ensures Apply(s, AcmeRevoke(id, endpoint, body, authorized)).certs ==
      if s.certs[id].body == body && s.certs[id].endpoint == endpoint && authorized then s.certs[id := s.certs[id].(status := Revoked)] else s.certs
  {
    hide AfterOpenLink, AfterRevoke, AfterRequestPrivate, Reconcile, Mailed, NewOptions, MayIssue, After, Renewable;
  }

  /** A private certificate is issued, with its record at the CA, exactly when the CA is ACTIVE and could make a certificate that parses. */
  lemma PrivateIsIssuedExactlyWhen(s: State, id: CertId, row: RowId, made: bool, parsed: bool, body: string)
    requires id !in s.certs && row !in s.rows
    ensures var s' := Apply(s, RequestPrivate(id, row, made, parsed, body));
      && (id in s'.certs <==> row.ca in s.cas && s.cas[row.ca].status == Active && made && parsed)
      && (id in s'.certs ==> s'.certs == s.certs[id := Cert(Private, Issued, [], true, "", Some(row), body)] && row in s'.rows && s'.rows[row] == RowIssued)
      && (row in s'.rows <==> row.ca in s.cas && s.cas[row.ca].status == Active && made)
  {
  }
}
