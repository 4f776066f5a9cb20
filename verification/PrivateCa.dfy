// Private certificate authorities and the certificates they issue:
// simulator-aws/acmpca.go. Keys, certificates and clocks are values a request
// brings along; each request is one step.

module PrivateCas {
  import opened Common

  type Id = string
  type Key = string

  datatype Status = PendingCertificate | Active | Disabled | Deleted

  datatype X509 = X509(key: Key, isCA: bool)

  /** `before` is the status remembered for a restore, `deadline` the last moment for one. */
  datatype Ca = Ca(key: Key, status: Status, certificate: Option<X509>, before: Status, deadline: int)

  /** A row's ARN is made of its CA's ARN and its random serial number. */
  datatype RowId = RowId(ca: Id, serial: string)

  datatype Row = RowIssued | RowRevoked

  type Cas = map<Id, Ca>
  type Rows = map<RowId, Row>

  /**
   * What a request asks of one CA. `parsed` is the imported certificate, when it
   * is one at all; `calendar` gives the moment that many days after the request.
   */
  datatype CaRequest =
    | Import(parsed: Option<X509>)
    | Update(status: Option<Status>)
    | Delete(days: int, calendar: int -> int)
    | Restore(now: int)

  predicate DaysOk(days: int) {
    days == 0 || 7 <= days <= 30
  }

  /** The last moment for a restore that a deletion sets: 30 days on, where it names no days. */
  function Deadline(req: CaRequest): (moment: int)
    requires req.Delete?
  {
    req.calendar(if req.days == 0 then 30 else req.days)
  }

  function NewCa(key: Key): (ca: Ca) {
    Ca(key, PendingCertificate, None, PendingCertificate, 0)
  }

  /** The new CA, or None when the request is refused. */
  function Handle(ca: Ca, req: CaRequest): (ca': Option<Ca>) {
    match req
    case Import(parsed) =>
      if ca.status != PendingCertificate || parsed.None? || !parsed.value.isCA || parsed.value.key != ca.key then None
      else Some(ca.(certificate := parsed, status := Active))
    case Update(status) =>
      if ca.status !in {Active, Disabled} || status !in {None, Some(Active), Some(Disabled)} then None
      else Some(if status.Some? then ca.(status := status.value) else ca)
    case Delete(days, _) =>
      if ca.status == Active || !DaysOk(days) then None
      else Some(ca.(before := ca.status, status := Deleted, deadline := Deadline(req)))
    case Restore(now) =>
      if ca.status != Deleted || ca.deadline < now then None
      else Some(ca.(status := ca.before, deadline := 0))
  }

  function After(ca: Ca, req: CaRequest): (ca': Ca) {
    var answer := Handle(ca, req);
    if answer.Some? then answer.value else ca
  }

  /** The CA after a run of requests. */
  function AfterAll(ca: Ca, reqs: seq<CaRequest>): (ca': Ca)
    decreases |reqs|
  {
    if reqs == [] then ca else AfterAll(After(ca, reqs[0]), reqs[1..])
  }

  /** The CA holds an imported CA certificate for its own key. */
  predicate Certified(ca: Ca) {
    ca.certificate.Some? && ca.certificate.value.isCA && ca.certificate.value.key == ca.key
  }

  /** A CA that is usable, or would be usable once restored, is certified. */
  predicate CaOk(ca: Ca) {
    && (ca.status in {Active, Disabled} ==> Certified(ca))
    && (ca.status == Deleted && ca.before in {Active, Disabled} ==> Certified(ca))
  }

  lemma {:induction false} EveryRunKeepsCaOk(ca: Ca, reqs: seq<CaRequest>)
    requires CaOk(ca)
    ensures CaOk(AfterAll(ca, reqs)) && AfterAll(ca, reqs).key == ca.key
    decreases |reqs|
  {
    if reqs != [] {
      EveryRunKeepsCaOk(After(ca, reqs[0]), reqs[1..]);
    }
  }

  /** From its creation on, whatever is asked of it, an ACTIVE or DISABLED CA holds a CA certificate of its own key. */
  lemma UsableCasAreCertified(key: Key, reqs: seq<CaRequest>)
    ensures var ca := AfterAll(NewCa(key), reqs); ca.key == key && (ca.status in {Active, Disabled} ==> Certified(ca))
  {
    EveryRunKeepsCaOk(NewCa(key), reqs);
  }

  /** An ACTIVE CA cannot be deleted, so nothing ever remembers ACTIVE. */
  lemma {:induction false} RestoredCasAreNeverActive(ca: Ca, reqs: seq<CaRequest>)
    requires ca.before != Active
    ensures AfterAll(ca, reqs).before != Active
    decreases |reqs|
  {
    if reqs != [] {
      RestoredCasAreNeverActive(After(ca, reqs[0]), reqs[1..]);
    }
  }

  predicate AcceptedDelete(req: CaRequest) {
    req.Delete? && DaysOk(req.days)
  }

  /** What requests other than a restore do to a DELETED CA. */
  lemma {:induction false} WhileDeleted(ca: Ca, reqs: seq<CaRequest>)
    requires ca.status == Deleted && forall i :: 0 <= i < |reqs| ==> !reqs[i].Restore?
    ensures var ca' := AfterAll(ca, reqs);
      && ca'.status == Deleted
      && ca'.key == ca.key && ca'.certificate == ca.certificate
      && if exists i :: 0 <= i < |reqs| && AcceptedDelete(reqs[i]) then ca'.before == Deleted
         else ca'.before == ca.before && ca'.deadline == ca.deadline
    decreases |reqs|
  {
    if reqs != [] {
      var rest := reqs[1..];
      WhileDeleted(After(ca, reqs[0]), rest);
      assert forall i :: 0 <= i < |rest| ==> rest[i] == reqs[i + 1];
      assert (exists i :: 0 <= i < |reqs| && AcceptedDelete(reqs[i])) <==>
        AcceptedDelete(reqs[0]) || exists i :: 0 <= i < |rest| && AcceptedDelete(rest[i]) by {
        if i :| 0 <= i < |reqs| && AcceptedDelete(reqs[i]) {
          assert i > 0 ==> AcceptedDelete(rest[i - 1]);
        }
        if i :| 0 <= i < |rest| && AcceptedDelete(rest[i]) {
          assert AcceptedDelete(reqs[i + 1]);
        }
      }
    }
  }

  /**
   * A restore gives a PENDING or DISABLED CA back as it was before its deletion
   * exactly when it comes by the deadline of that deletion and no further
   * deletion was accepted in between: deleting a DELETED CA overwrites what it
   * remembers.
   */
  lemma RestoreGivesBackExactlyWhen(ca: Ca, first: CaRequest, between: seq<CaRequest>, now: int)
    requires ca.status in {PendingCertificate, Disabled} && AcceptedDelete(first)
    requires forall i :: 0 <= i < |between| ==> !between[i].Restore?
    ensures var restored := After(AfterAll(After(ca, first), between), Restore(now));
      && (restored.status == ca.status <==>
            now <= Deadline(first) && !exists i :: 0 <= i < |between| && AcceptedDelete(between[i]))
      && (restored.status == ca.status || restored.status == Deleted)
      && restored.key == ca.key && restored.certificate == ca.certificate
  {
    WhileDeleted(After(ca, first), between);
  }

  /**
   * The whole life of a CA: certified, disabled, deleted, restored by the
   * deadline and made usable again, it holds the certificate it was given.
   */
  lemma ACaLives(key: Key, del: CaRequest, now: int)
    requires AcceptedDelete(del) && now <= Deadline(del)
    ensures var cert := Some(X509(key, true));
      && AfterAll(NewCa(key), [Import(cert)]) == Ca(key, Active, cert, PendingCertificate, 0)
      && AfterAll(NewCa(key), [Import(cert), Update(Some(Disabled)), del]) == Ca(key, Deleted, cert, Disabled, Deadline(del))
      && AfterAll(NewCa(key), [Import(cert), Update(Some(Disabled)), del, Restore(now), Update(Some(Active))]) == Ca(key, Active, cert, Disabled, 0)
  {
    var cert := Some(X509(key, true));
    AfterMore(NewCa(key), [], Import(cert));
    assert [] + [Import(cert)] == [Import(cert)];
    AfterMore(NewCa(key), [Import(cert)], Update(Some(Disabled)));
    var disabled := [Import(cert)] + [Update(Some(Disabled))];
    AfterMore(NewCa(key), disabled, del);
    assert disabled + [del] == [Import(cert), Update(Some(Disabled)), del];
    AfterMore(NewCa(key), disabled + [del], Restore(now));
    AfterMore(NewCa(key), disabled + [del] + [Restore(now)], Update(Some(Active)));
    assert disabled + [del] + [Restore(now)] + [Update(Some(Active))] == [Import(cert), Update(Some(Disabled)), del, Restore(now), Update(Some(Active))];
  }

  lemma {:induction false} AfterMore(ca: Ca, reqs: seq<CaRequest>, req: CaRequest)
    ensures AfterAll(ca, reqs + [req]) == After(AfterAll(ca, reqs), req)
    decreases |reqs|
  {
    if reqs == [] {
      assert (reqs + [req])[1..] == [];
    } else {
      AfterMore(After(ca, reqs[0]), reqs[1..], req);
      assert (reqs + [req])[1..] == reqs[1..] + [req];
    }
  }

  lemma DeletingTwiceLosesTheStatus(calendar: int -> int, now: int)
    requires now <= calendar(7)
    ensures var ca, del := Ca("key", Disabled, Some(X509("key", true)), PendingCertificate, 0), Delete(7, calendar);
      CaOk(ca) && AfterAll(ca, [del, Restore(now)]).status == Disabled && AfterAll(ca, [del, del, Restore(now)]).status == Deleted
  {
    var ca, del := Ca("key", Disabled, Some(X509("key", true)), PendingCertificate, 0), Delete(7, calendar);
    AfterMore(ca, [], del);
    assert [] + [del] == [del];
    AfterMore(ca, [del], Restore(now));
    assert [del] + [Restore(now)] == [del, Restore(now)];
    AfterMore(ca, [del], del);
    AfterMore(ca, [del] + [del], Restore(now));
    assert [del] + [del] + [Restore(now)] == [del, del, Restore(now)];
  }

  /** And then no request brings it back. */
  lemma {:induction false} DeletedTwiceIsForever(ca: Ca, reqs: seq<CaRequest>)
    requires ca.status == Deleted && ca.before == Deleted
    ensures AfterAll(ca, reqs).status == Deleted
    decreases |reqs|
  {
    if reqs != [] {
      DeletedTwiceIsForever(After(ca, reqs[0]), reqs[1..]);
    }
  }

  /** Past its deadline a DELETED CA stays as it is, unless a further deletion sets a new deadline. */
  lemma {:induction false} TooLateToRestore(ca: Ca, reqs: seq<CaRequest>)
    requires ca.status == Deleted
    requires forall i :: 0 <= i < |reqs| ==> !AcceptedDelete(reqs[i]) && (reqs[i].Restore? ==> reqs[i].now > ca.deadline)
    ensures AfterAll(ca, reqs) == ca
    decreases |reqs|
  {
    if reqs != [] {
      assert !AcceptedDelete(reqs[0]);
      assert After(ca, reqs[0]) == ca;
      var rest := reqs[1..];
      assert forall i :: 0 <= i < |rest| ==> rest[i] == reqs[i + 1];
      TooLateToRestore(ca, rest);
    }
  }

  /** No request takes a CA's certificate away. */
  lemma CertifiedLasts(ca: Ca, req: CaRequest)
    requires Certified(ca)
    ensures Certified(After(ca, req))
  {
  }

  // The handlers over their stores.

  datatype Revocation = Done | NotFound | AlreadyRevoked | CrlFailed

  /** A revocation is kept even when the list of revoked certificates cannot be written afterwards. */
  function RevokedRows(rows: Rows, id: RowId): (rows': Rows) {
    if id in rows then rows[id := RowRevoked] else rows
  }

  function RevocationAnswer(cas: Cas, rows: Rows, id: RowId, crlOk: bool): (answer: Revocation) {
    if id !in rows then NotFound
    else if rows[id] == RowRevoked then AlreadyRevoked
    else if id.ca in cas && !crlOk then CrlFailed
    else Done
  }

  /** An end-entity or CA certificate may be issued by an ACTIVE CA; a root certificate also by a CA still waiting for one. */
  predicate MayIssue(ca: Ca, rootTemplate: bool) {
    ca.status == Active || (ca.status == PendingCertificate && rootTemplate)
  }

  class Authorities {
    var cas: Cas
    var rows: Rows

    /** Every CA that is usable, or would be once restored, is certified. */
    ghost predicate Valid()
      reads this
    {
      forall ca :: ca in cas ==> CaOk(cas[ca])
    }

    constructor ()
      ensures Valid() && cas == map[] && rows == map[]
    {
      cas, rows := map[], map[];
    }

    method Create(id: Id, key: Key)
      requires Valid()
      modifies this
      ensures Valid()
      ensures cas == old(cas)[id := NewCa(key)] && rows == old(rows)
    {
      cas := cas[id := NewCa(key)];
    }

    /**
     * handlePrivateCAImport, -Update, -Delete and -Restore: one CA changes, or
     * none. A PENDING CA takes a CA certificate of its own key and is ACTIVE; a
     * usable one takes the status it is told; any but an ACTIVE one is deleted,
     * with its status and a deadline kept; a deleted one is restored by then.
     */
    method Serve(id: Id, req: CaRequest) returns (ok: bool)
      requires Valid()
      modifies this
      ensures Valid()
      ensures ok <==> id in old(cas) && Handle(old(cas)[id], req).Some?
      ensures cas == if id in old(cas) then old(cas)[id := After(old(cas)[id], req)] else old(cas)
      ensures rows == old(rows)
      ensures cas.Keys == old(cas).Keys
      ensures id in old(cas) ==>
        var ca, ca' := old(cas)[id], cas[id];
        match req
        case Import(parsed) =>
          && (ok <==> ca.status == PendingCertificate && parsed.Some? && parsed.value == X509(ca.key, true))
          && (ok ==> ca'.status == Active && ca'.certificate == parsed)
        case Update(status) =>
          && (ok <==> (ca.status == Active || ca.status == Disabled) && (status.None? || status.value == Active || status.value == Disabled))
          && (ok ==> ca'.status == (if status.Some? then status.value else ca.status) && ca'.certificate == ca.certificate)
        case Delete(days, calendar) =>
          && (ok <==> ca.status != Active && (days == 0 || 7 <= days <= 30))
          && (ok ==> ca'.status == Deleted && ca'.before == ca.status && ca'.deadline == calendar(if days == 0 then 30 else days))
        case Restore(now) =>
          && (ok <==> ca.status == Deleted && now <= ca.deadline)
          && (ok ==> ca'.status == ca.before && ca'.certificate == ca.certificate)
    {
      if id !in cas {
        return false;
      }
      var ca := cas[id];
      match req {
        case Import(parsed) =>
          if ca.status != PendingCertificate || parsed.None? || !parsed.value.isCA || parsed.value.key != ca.key {
            return false;
          }
          ca := ca.(certificate := parsed);
          ca := ca.(status := Active);
        case Update(status) =>
          if (ca.status != Active && ca.status != Disabled) || (status.Some? && status.value != Active && status.value != Disabled) {
            return false;
          }
          if status.Some? {
            ca := ca.(status := status.value);
          }
        case Delete(days, calendar) =>
          if ca.status == Active {
            return false;
          }
          var d := if days == 0 then 30 else days;
          if d < 7 || d > 30 {
            return false;
          }
          ca := ca.(before := ca.status);
          ca := ca.(status := Deleted, deadline := calendar(d));
        case Restore(now) =>
          if ca.status != Deleted || ca.deadline < now {
            return false;
          }
          ca := ca.(status := ca.before, deadline := 0);
      }
      cas := cas[id := ca];
      return true;
    }

    /**
     * privateCAIssueCertificate and the write of its row; `made` says whether
     * the certificate could be made. Unless it is a root's own, a new row's CA
     * holds a certificate to issue under, and stays as it is; a CA that is
     * DISABLED or DELETED issues nothing.
     */
    method Issue(id: RowId, rootTemplate: bool, made: bool) returns (ok: bool)
      requires Valid()
      modifies this
      ensures Valid()
      ensures cas == old(cas) && rows == if ok then old(rows)[id := RowIssued] else old(rows)
      ensures ok ==> id.ca in cas && (Certified(cas[id.ca]) || (rootTemplate && cas[id.ca].status == PendingCertificate))
      ensures id.ca in cas && cas[id.ca].status in {Disabled, Deleted} ==> !ok
      ensures ok <==> made && id.ca in cas && (cas[id.ca].status == Active || (cas[id.ca].status == PendingCertificate && rootTemplate))
    {
      if id.ca !in cas || !MayIssue(cas[id.ca], rootTemplate) || !made {
        return false;
      }
      rows := rows[id := RowIssued];
      return true;
    }

    /**
     * privateCARevokeIssuedCertificate: afterwards a row that exists is revoked
     * and no other has changed; the answer is Done exactly for a row still
     * issued whose list of revocations was written or belongs to no CA.
     */
    method Revoke(id: RowId, crlOk: bool) returns (answer: Revocation)
      modifies this
      ensures cas == old(cas) && rows == RevokedRows(old(rows), id)
      ensures answer == RevocationAnswer(old(cas), old(rows), id, crlOk)
      ensures rows.Keys == old(rows).Keys && (id in rows ==> rows[id] == RowRevoked)
      ensures forall other :: other in rows && other != id ==> rows[other] == old(rows)[other]
      ensures answer == NotFound <==> id !in old(rows)
      ensures answer == AlreadyRevoked <==> id in old(rows) && old(rows)[id] == RowRevoked
      ensures answer == CrlFailed <==> id in old(rows) && old(rows)[id] == RowIssued && id.ca in cas && !crlOk
    {
      if id !in rows {
        return NotFound;
      }
      if rows[id] == RowRevoked {
        assert rows[id := RowRevoked] == rows;
        return AlreadyRevoked;
      }
      rows := rows[id := RowRevoked];
      if id.ca in cas && !crlOk {
        return CrlFailed;
      }
      return Done;
    }
  }
}
