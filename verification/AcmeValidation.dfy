// Which pre-approved domain validation covers a name: the indexed walk over the
// name and its parent domains in simulator-aws/acm_acme.go.

module AcmeValidations {
  import opened Common

  type Arn = string

  /** What a validation may be used for. */
  datatype Scope = Scope(exactDomain: bool, subdomains: bool, wildcards: bool)

  datatype Status = Validating | Valid | Other

  /** `scope` is absent when the validation has no DNS details. */
  datatype Validation = Validation(arn: Arn, endpoint: Arn, domain: string, scope: Option<Scope>, status: Status)

  type Rows = map<Arn, Validation>

  /** Lower-casing one character at a time. */
  type Lower = char -> char

  /** What the walk relies on: lower-casing settles at once and leaves '*' and '.' alone. */
  ghost predicate GoodLower(lower: Lower) {
    && (forall c: char :: lower(lower(c)) == lower(c))
    && (forall c: char :: lower(c) == '.' <==> c == '.')
    && (forall c: char :: lower(c) == '*' <==> c == '*')
  }

  predicate IsWildcard(name: string) {
    "*." <= name
  }

  /** The domain a name or a validation stands for: lower case, without the wildcard label. */
  function BaseDomain(name: string, lower: Lower): (base: string) {
    var t := EachChar(name, lower);
    if "*." <= t then t[2..] else t
  }

  /** base is a domain above name: name ends in a dot and base. */
  predicate IsParentDomain(base: string, name: string) {
    |base| < |name| && name[|name| - |base| - 1] == '.' && name[|name| - |base|..] == base
  }

  /** The scope covers the name as itself, as its wildcard, or as a subdomain. */
  predicate ScopeCovers(scope: Scope, base: string, name: string, wildcard: bool) {
    && base != ""
    && (|| (wildcard && base == name && scope.wildcards)
        || (!wildcard && base == name && scope.exactDomain)
        || (!wildcard && IsParentDomain(base, name) && scope.subdomains))
  }

  predicate Covers(v: Validation, endpoint: Arn, name: string, lower: Lower) {
    && v.endpoint == endpoint && v.scope.Some?
    && ScopeCovers(v.scope.value, BaseDomain(v.domain, lower), BaseDomain(name, lower), IsWildcard(name))
  }

  /** A validation becomes valid when it is looked at and its DNS record answers. */
  function Reconciled(v: Validation, answers: Validation -> bool): (w: Validation) {
    if v.status == Validating && v.scope.Some? && answers(v) then v.(status := Valid) else v
  }

  predicate Approves(v: Validation, endpoint: Arn, name: string, lower: Lower, answers: Validation -> bool) {
    Covers(v, endpoint, name, lower) && Reconciled(v, answers).status == Valid
  }

  /** v is a row of the endpoint as it stands once looked at, valid then and covering the name. */
  ghost predicate IsApproval(rows: Rows, endpoint: Arn, name: string, lower: Lower, answers: Validation -> bool, v: Validation) {
    && v.status == Valid && Covers(v, endpoint, name, lower)
    && exists arn :: arn in rows && v == Reconciled(rows[arn], answers) && Approves(rows[arn], endpoint, name, lower, answers)
  }

  ghost predicate Approvable(rows: Rows, endpoint: Arn, name: string, lower: Lower, answers: Validation -> bool) {
    exists arn :: arn in rows && Approves(rows[arn], endpoint, name, lower, answers)
  }

  /** What looking up all of an order's identifiers comes to: an approval for each of them, or a refusal when one has none. */
  ghost predicate OrderApproval(rows: Rows, rows': Rows, endpoint: Arn, identifiers: seq<string>, lower: Lower,
                                answers: Validation -> bool, approvals: Option<seq<Validation>>) {
    && OnlyReconciled(rows, rows', answers)
    && (approvals.Some? <==> forall i :: 0 <= i < |identifiers| ==> Approvable(rows, endpoint, identifiers[i], lower, answers))
    && (approvals.Some? ==>
          && |approvals.value| == |identifiers|
          && forall i :: 0 <= i < |identifiers| ==> IsApproval(rows, endpoint, identifiers[i], lower, answers, approvals.value[i]))
  }

  lemma WildcardKeepsItsCase(name: string, lower: Lower)
    requires GoodLower(lower)
    ensures IsWildcard(name) <==> "*." <= EachChar(name, lower)
  {
    var t := EachChar(name, lower);
    assert |name| >= 2 ==> t[0] == lower(name[0]) && t[1] == lower(name[1]);
    assert IsWildcard(name) <==> |name| >= 2 && name[0] == '*' && name[1] == '.';
    assert "*." <= t <==> |t| >= 2 && t[0] == '*' && t[1] == '.';
  }

  lemma BelowExactlyWhen(base: string, t: string)
    ensures IsParentDomain(base, t) <==> exists front: string :: t == front + "." + base
  {
    if IsParentDomain(base, t) {
      var k := |t| - |base| - 1;
      assert t == t[..k] + "." + base;
    }
  }

  /**
   * A validation of a domain, or of its wildcard, approves exactly the domain
   * itself, its wildcard, and the names below it, up to case and each under its
   * own part of the scope, once it is valid or its DNS record answers.
   */
  lemma ApprovesExactlyWhen(v: Validation, endpoint: Arn, base: string, name: string, lower: Lower, answers: Validation -> bool)
    requires GoodLower(lower) && base != "" && !IsWildcard(base)
    requires EachChar(v.domain, lower) == base || EachChar(v.domain, lower) == "*." + base
    ensures Approves(v, endpoint, name, lower, answers) <==>
      && v.endpoint == endpoint && v.scope.Some? && (v.status == Valid || (v.status == Validating && answers(v)))
      && var t := EachChar(name, lower);
         || (v.scope.value.exactDomain && t == base)
         || (v.scope.value.wildcards && t == "*." + base)
         || (v.scope.value.subdomains && !IsWildcard(t) && exists front: string :: t == front + "." + base)
  {
    hide EachChar, GoodLower, IsParentDomain;
    var t := EachChar(name, lower);
    WildcardKeepsItsCase(name, lower);
    BelowExactlyWhen(base, t);
    assert BaseDomain(v.domain, lower) == base;
    if IsWildcard(t) {
      assert t == "*." + t[2..];
    } else {
      assert t != "*." + base;
    }
    assert t == base ==> !IsParentDomain(base, t) by {
      SelfIsNotBelow(base);
    }
  }

  lemma SelfIsNotBelow(base: string)
    ensures !IsParentDomain(base, base)
  {
  }

  /** The index key of a base domain of an endpoint. */
  function IndexKey(endpoint: Arn, base: string, lower: Lower): (key: string) {
    endpoint + ['\0'] + EachChar(base, lower)
  }

  /** Every row under its own ARN. */
  ghost predicate OwnArns(rows: Rows) {
    forall arn :: arn in rows ==> rows[arn].arn == arn
  }

  /** Nothing changed but rows that turned valid. */
  ghost predicate OnlyReconciled(rows: Rows, rows': Rows, answers: Validation -> bool) {
    && rows'.Keys == rows.Keys
    && forall arn :: arn in rows ==> rows'[arn] == rows[arn] || rows'[arn] == Reconciled(rows[arn], answers)
  }

  /** A dot starts a parent domain just after it. */
  predicate StartsDomain(name: string, p: nat) {
    p < |name| && (p == 0 || name[p - 1] == '.')
  }

  /** The first dot from p on, or the end. */
  function NextDot(name: string, p: nat): (i: nat)
    requires p <= |name|
    ensures p <= i <= |name|
    ensures i < |name| ==> name[i] == '.'
    ensures forall j :: p <= j < i ==> name[j] != '.'
    decreases |name| - p
  {
    if p == |name| || name[p] == '.' then p else NextDot(name, p + 1)
  }

  /** A suffix of a base domain, and every base domain, is already lower case. */
  lemma BaseIsLower(name: string, lower: Lower, p: nat)
    requires GoodLower(lower) && p <= |BaseDomain(name, lower)|
    ensures EachChar(BaseDomain(name, lower)[p..], lower) == BaseDomain(name, lower)[p..]
  {
    var t, base := EachChar(name, lower), BaseDomain(name, lower);
    var cut := if "*." <= t then 2 else 0;
    forall i | 0 <= i < |base| - p
      ensures lower(base[p..][i]) == base[p..][i]
    {
      assert base[p..][i] == t[cut + p + i] == lower(name[cut + p + i]);
    }
  }

  /** The index answers a key exactly with the endpoint's validations of that base domain. */
  lemma IndexKeyDecides(e: Arn, base: string, f: Arn, other: string, lower: Lower)
    requires '\0' !in e && '\0' !in f
    ensures IndexKey(e, base, lower) == IndexKey(f, other, lower) <==> e == f && EachChar(base, lower) == EachChar(other, lower)
  {
    var k, l := IndexKey(e, base, lower), IndexKey(f, other, lower);
    if k == l {
      assert k[|e|] == '\0' && l[|f|] == '\0';
      assert forall i :: 0 <= i < |e| ==> k[i] == e[i] && e[i] in e;
      assert forall i :: 0 <= i < |f| ==> l[i] == f[i] && f[i] in f;
      assert |e| == |f|;
      assert e == k[..|e|] && f == l[..|f|];
      assert EachChar(base, lower) == k[|e| + 1..] && EachChar(other, lower) == l[|f| + 1..];
    }
  }

  lemma ParentDomainsStartAfterDots(base: string, name: string)
    ensures IsParentDomain(base, name) && base != "" <==>
      exists p :: 0 < p < |name| && StartsDomain(name, p) && name[p..] == base
  {
    if IsParentDomain(base, name) && base != "" {
      assert StartsDomain(name, |name| - |base|);
    }
  }

  /** The three cases the loop tests of a candidate found under a suffix of the name. */
  predicate WalkTest(scope: Scope, name: string, base: string, wildcard: bool) {
    || (wildcard && name == base && scope.wildcards)
    || (!wildcard && name == base && scope.exactDomain)
    || (!wildcard && name != base && scope.subdomains)
  }

  /** Of a candidate found under the suffix at p, the tests decide whether it approves the name. */
  lemma WalkTestDecides(v: Validation, endpoint: Arn, domain: string, lower: Lower, answers: Validation -> bool, p: nat)
    requires StartsDomain(BaseDomain(domain, lower), p)
    requires v.endpoint == endpoint && BaseDomain(v.domain, lower) == BaseDomain(domain, lower)[p..]
    ensures var name := BaseDomain(domain, lower); var w := Reconciled(v, answers);
      Approves(v, endpoint, domain, lower, answers) <==>
        w.status == Valid && w.scope.Some? && WalkTest(w.scope.value, name, name[p..], IsWildcard(domain))
  {
    hide BaseDomain;
  }

  /** No validation under a suffix before position p approves the name. */
  ghost predicate NoneBefore(rows: Rows, endpoint: Arn, domain: string, lower: Lower, answers: Validation -> bool, p: nat) {
    var name := BaseDomain(domain, lower);
    forall arn, q :: arn in rows && 0 <= q < p && StartsDomain(name, q) && BaseDomain(rows[arn].domain, lower) == name[q..] ==>
      !Approves(rows[arn], endpoint, domain, lower, answers)
  }

  lemma CoveringBaseIsASuffix(v: Validation, endpoint: Arn, domain: string, lower: Lower)
    requires Covers(v, endpoint, domain, lower)
    ensures var name := BaseDomain(domain, lower);
      exists q :: 0 <= q < |name| && StartsDomain(name, q) && BaseDomain(v.domain, lower) == name[q..]
  {
    var name, base := BaseDomain(domain, lower), BaseDomain(v.domain, lower);
    if base == name {
      assert StartsDomain(name, 0) && name[0..] == name;
    } else {
      ParentDomainsStartAfterDots(base, name);
    }
  }

  lemma WalkedAll(rows: Rows, endpoint: Arn, domain: string, lower: Lower, answers: Validation -> bool, p: nat)
    requires NoneBefore(rows, endpoint, domain, lower, answers, p)
    requires p >= |BaseDomain(domain, lower)|
    ensures forall arn :: arn in rows ==> !Approves(rows[arn], endpoint, domain, lower, answers)
  {
    forall arn | arn in rows
      ensures !Approves(rows[arn], endpoint, domain, lower, answers)
    {
      if Covers(rows[arn], endpoint, domain, lower) {
        CoveringBaseIsASuffix(rows[arn], endpoint, domain, lower);
      }
    }
  }

  lemma WalkStep(rows: Rows, endpoint: Arn, domain: string, lower: Lower, answers: Validation -> bool, p: nat)
    requires p < |BaseDomain(domain, lower)| && NoneBefore(rows, endpoint, domain, lower, answers, p)
    requires forall arn :: arn in rows && BaseDomain(rows[arn].domain, lower) == BaseDomain(domain, lower)[p..] ==>
      !Approves(rows[arn], endpoint, domain, lower, answers)
    ensures NoneBefore(rows, endpoint, domain, lower, answers, NextDot(BaseDomain(domain, lower), p) + 1)
  {
    var name := BaseDomain(domain, lower);
    var dot := NextDot(name, p);
    forall arn, q | arn in rows && 0 <= q < dot + 1 && StartsDomain(name, q) && BaseDomain(rows[arn].domain, lower) == name[q..]
      ensures !Approves(rows[arn], endpoint, domain, lower, answers)
    {
      assert q <= p;
    }
  }

  /** A row that reconciliation has touched approves what it approved before. */
  lemma ReconcilingChangesNoAnswer(v: Validation, endpoint: Arn, name: string, lower: Lower, answers: Validation -> bool)
    ensures Approves(Reconciled(v, answers), endpoint, name, lower, answers) <==> Approves(v, endpoint, name, lower, answers)
    ensures Reconciled(Reconciled(v, answers), answers) == Reconciled(v, answers)
  {
  }

  lemma OtherEndpointsDoNotApprove(rows: Rows, endpoint: Arn, domain: string, lower: Lower, answers: Validation -> bool)
    ensures forall arn :: arn in rows && rows[arn].endpoint != endpoint ==> !Approves(rows[arn], endpoint, domain, lower, answers)
  {
  }

  lemma NothingReconciled(rows: Rows, answers: Validation -> bool)
    ensures OnlyReconciled(rows, rows, answers)
  {
  }

  /** An outcome of looking the identifiers up in rows that need no reconciling written back. */
  ghost function SomeApproval(rows: Rows, endpoint: Arn, identifiers: seq<string>, lower: Lower, answers: Validation -> bool)
    : (approvals: Option<seq<Validation>>)
    ensures OrderApproval(rows, rows, endpoint, identifiers, lower, answers, approvals)
  {
    if i: nat :| 0 <= i < |identifiers| && !Approvable(rows, endpoint, identifiers[i], lower, answers) then None
    else Some(seq(|identifiers|, i requires 0 <= i < |identifiers| =>
           ApprovalOf(rows, endpoint, identifiers[i], lower, answers)))
  }

  ghost function ApprovalOf(rows: Rows, endpoint: Arn, name: string, lower: Lower, answers: Validation -> bool): (v: Validation)
    requires Approvable(rows, endpoint, name, lower, answers)
    ensures IsApproval(rows, endpoint, name, lower, answers, v)
  {
    var arn :| arn in rows && Approves(rows[arn], endpoint, name, lower, answers);
    Reconciled(rows[arn], answers)
  }

  /** Writing back one reconciled candidate of the listing. */
  lemma WriteBack(listed: Rows, rows: Rows, answers: Validation -> bool, arn: Arn)
    requires OwnArns(listed) && OwnArns(rows) && OnlyReconciled(listed, rows, answers) && arn in listed
    ensures var candidate := Reconciled(listed[arn], answers); var rows' := rows[candidate.arn := candidate];
      OwnArns(rows') && OnlyReconciled(listed, rows', answers)
  {
  }

  class Validations {
    var rows: Rows

    constructor ()
      ensures rows == map[]
    {
      rows := map[];
    }

    /** One LookupAll and the candidates it returns, in any order. */
    method TryBase(endpoint: Arn, domain: string, lower: Lower, answers: Validation -> bool, p: nat)
      returns (found: Option<Validation>)
      requires GoodLower(lower) && OwnArns(rows) && StartsDomain(BaseDomain(domain, lower), p)
      requires '\0' !in endpoint && forall arn :: arn in rows ==> '\0' !in rows[arn].endpoint
      modifies this
      ensures OwnArns(rows) && OnlyReconciled(old(rows), rows, answers)
      ensures found.Some? ==> exists arn :: arn in old(rows) && found.value == Reconciled(old(rows)[arn], answers)
                                         && Approves(old(rows)[arn], endpoint, domain, lower, answers)
      ensures found.None? ==> forall arn :: arn in old(rows) && BaseDomain(old(rows)[arn].domain, lower) == BaseDomain(domain, lower)[p..] ==>
                                !Approves(old(rows)[arn], endpoint, domain, lower, answers)
    {
      hide GoodLower, BaseDomain, IndexKey, Approves, WalkTest, OnlyReconciled, OwnArns, Reconciled;
      OtherEndpointsDoNotApprove(rows, endpoint, domain, lower, answers);
      NothingReconciled(rows, answers);
      var name, wildcard := BaseDomain(domain, lower), IsWildcard(domain);
      var base := name[p..];
      var key := IndexKey(endpoint, base, lower);
      var listed := rows;
      var left := set arn | arn in listed && IndexKey(listed[arn].endpoint, BaseDomain(listed[arn].domain, lower), lower) == key;
      CandidatesAreTheBaseDomain(listed, endpoint, domain, lower, p);
      ghost var candidates := left;
      while left != {}
        invariant left <= candidates && OwnArns(rows) && OnlyReconciled(old(rows), rows, answers)
        invariant forall arn :: arn in candidates && arn !in left ==> !Approves(listed[arn], endpoint, domain, lower, answers)
        decreases |left|
      {
        var arn :| arn in left;
        left := left - {arn};
        var candidate := Reconciled(listed[arn], answers);
        WalkTestDecides(listed[arn], endpoint, domain, lower, answers, p);
        WriteBack(listed, rows, answers, arn);
        if candidate != listed[arn] {
          rows := rows[candidate.arn := candidate];
        }
        if candidate.status == Valid && candidate.scope.Some? {
          if WalkTest(candidate.scope.value, name, base, wildcard) {
            return Some(candidate);
          }
        }
      }
      return None;
    }

    /**
     * acmFindAcmeValidation: the walk from the name up finds a validation
     * exactly when some validation of the endpoint, valid now or once looked
     * at, covers the name; it ends for every name.
     */
    method Find(endpoint: Arn, domain: string, lower: Lower, answers: Validation -> bool) returns (found: Option<Validation>)
      requires GoodLower(lower) && OwnArns(rows)
      requires '\0' !in endpoint && forall arn :: arn in rows ==> '\0' !in rows[arn].endpoint
      modifies this
      ensures OwnArns(rows) && OnlyReconciled(old(rows), rows, answers)
      ensures found.Some? <==> exists arn :: arn in old(rows) && Approves(old(rows)[arn], endpoint, domain, lower, answers)
      ensures found.Some? ==> IsApproval(old(rows), endpoint, domain, lower, answers, found.value)
    {
      hide GoodLower, OwnArns, OnlyReconciled, Approves, BaseDomain;
      NothingReconciled(rows, answers);
      var name := BaseDomain(domain, lower);
      var p: nat := 0;
      while p < |name|
        invariant p < |name| ==> StartsDomain(name, p)
        invariant OwnArns(rows) && OnlyReconciled(old(rows), rows, answers)
        invariant forall arn :: arn in rows ==> '\0' !in rows[arn].endpoint
        invariant NoneBefore(old(rows), endpoint, domain, lower, answers, p)
        decreases |name| - p
      {
        ghost var before := rows;
        var here := TryBase(endpoint, domain, lower, answers, p);
        StillOnlyReconciled(old(rows), before, rows, answers);
        if here.Some? {
          FoundBefore(old(rows), before, endpoint, domain, lower, answers, here.value);
          return here;
        }
        NoneHereBefore(old(rows), before, endpoint, domain, lower, answers, p);
        WalkStep(old(rows), endpoint, domain, lower, answers, p);
        p := NextDot(name, p) + 1;
      }
      WalkedAll(old(rows), endpoint, domain, lower, answers, p);
      return None;
    }

    /** The identifier loop of acmACMENewOrder, for DNS identifiers. */
    method ApproveAll(endpoint: Arn, identifiers: seq<string>, lower: Lower, answers: Validation -> bool)
      returns (approvals: Option<seq<Validation>>)
      requires GoodLower(lower) && OwnArns(rows)
      requires '\0' !in endpoint && forall arn :: arn in rows ==> '\0' !in rows[arn].endpoint
      modifies this
      ensures OwnArns(rows) && OrderApproval(old(rows), rows, endpoint, identifiers, lower, answers, approvals)
    {
      hide GoodLower, IsApproval, Approves, Approvable, OnlyReconciled, OwnArns;
      NothingReconciled(rows, answers);
      var found: seq<Validation> := [];
      var i: nat := 0;
      while i < |identifiers|
        invariant i <= |identifiers| && |found| == i
        invariant OwnArns(rows) && OnlyReconciled(old(rows), rows, answers)
        invariant forall arn :: arn in rows ==> '\0' !in rows[arn].endpoint
        invariant forall k :: 0 <= k < i ==> Approvable(old(rows), endpoint, identifiers[k], lower, answers)
        invariant forall k :: 0 <= k < i ==> IsApproval(old(rows), endpoint, identifiers[k], lower, answers, found[k])
      {
        ghost var before := rows;
        var here := Find(endpoint, identifiers[i], lower, answers);
        StillOnlyReconciled(old(rows), before, rows, answers);
        ApprovalsAreLasting(old(rows), before, endpoint, identifiers[i], lower, answers, here);
        if here.None? {
          return None;
        }
        found := found + [here.value];
        i := i + 1;
      }
      return Some(found);
    }
  }

  lemma CandidatesAreTheBaseDomain(rows: Rows, endpoint: Arn, domain: string, lower: Lower, p: nat)
    requires GoodLower(lower) && p <= |BaseDomain(domain, lower)|
    requires '\0' !in endpoint && forall arn :: arn in rows ==> '\0' !in rows[arn].endpoint
    ensures forall arn :: arn in rows ==>
      (IndexKey(rows[arn].endpoint, BaseDomain(rows[arn].domain, lower), lower) == IndexKey(endpoint, BaseDomain(domain, lower)[p..], lower)
       <==> rows[arn].endpoint == endpoint && BaseDomain(rows[arn].domain, lower) == BaseDomain(domain, lower)[p..])
  {
    BaseIsLower(domain, lower, p);
    forall arn | arn in rows
      ensures IndexKey(rows[arn].endpoint, BaseDomain(rows[arn].domain, lower), lower) == IndexKey(endpoint, BaseDomain(domain, lower)[p..], lower)
        <==> rows[arn].endpoint == endpoint && BaseDomain(rows[arn].domain, lower) == BaseDomain(domain, lower)[p..]
    {
      var base := BaseDomain(rows[arn].domain, lower);
      BaseIsLower(rows[arn].domain, lower, 0);
      assert base[0..] == base;
      IndexKeyDecides(rows[arn].endpoint, base, endpoint, BaseDomain(domain, lower)[p..], lower);
    }
  }

  lemma StillOnlyReconciled(start: Rows, before: Rows, rows: Rows, answers: Validation -> bool)
    requires OnlyReconciled(start, before, answers) && OnlyReconciled(before, rows, answers)
    ensures OnlyReconciled(start, rows, answers)
    ensures forall arn :: arn in rows ==> rows[arn].endpoint == start[arn].endpoint
  {
  }

  lemma FoundBefore(start: Rows, before: Rows, endpoint: Arn, domain: string, lower: Lower, answers: Validation -> bool, v: Validation)
    requires OnlyReconciled(start, before, answers)
    requires exists arn :: arn in before && v == Reconciled(before[arn], answers) && Approves(before[arn], endpoint, domain, lower, answers)
    ensures IsApproval(start, endpoint, domain, lower, answers, v)
  {
    var arn :| arn in before && v == Reconciled(before[arn], answers) && Approves(before[arn], endpoint, domain, lower, answers);
    ReconcilingChangesNoAnswer(start[arn], endpoint, domain, lower, answers);
    assert v == Reconciled(start[arn], answers) && Approves(start[arn], endpoint, domain, lower, answers);
  }

  /** Reconciling rows changes neither which names are approvable nor what approves them. */
  lemma ApprovalsAreLasting(start: Rows, before: Rows, endpoint: Arn, domain: string, lower: Lower, answers: Validation -> bool,
                            found: Option<Validation>)
    requires OnlyReconciled(start, before, answers)
    requires found.Some? <==> exists arn :: arn in before && Approves(before[arn], endpoint, domain, lower, answers)
    requires found.Some? ==> IsApproval(before, endpoint, domain, lower, answers, found.value)
    ensures found.Some? <==> Approvable(start, endpoint, domain, lower, answers)
    ensures found.Some? ==> IsApproval(start, endpoint, domain, lower, answers, found.value)
  {
    hide Approves;
    if found.Some? {
      FoundBefore(start, before, endpoint, domain, lower, answers, found.value);
    } else {
      forall arn | arn in start
        ensures !Approves(start[arn], endpoint, domain, lower, answers)
      {
        ReconcilingChangesNoAnswer(start[arn], endpoint, domain, lower, answers);
      }
    }
  }

  lemma NoneHereBefore(start: Rows, before: Rows, endpoint: Arn, domain: string, lower: Lower, answers: Validation -> bool, p: nat)
    requires OnlyReconciled(start, before, answers) && p <= |BaseDomain(domain, lower)|
    requires forall arn :: arn in before && BaseDomain(before[arn].domain, lower) == BaseDomain(domain, lower)[p..] ==>
      !Approves(before[arn], endpoint, domain, lower, answers)
    ensures forall arn :: arn in start && BaseDomain(start[arn].domain, lower) == BaseDomain(domain, lower)[p..] ==>
      !Approves(start[arn], endpoint, domain, lower, answers)
  {
    forall arn | arn in start && BaseDomain(start[arn].domain, lower) == BaseDomain(domain, lower)[p..]
      ensures !Approves(start[arn], endpoint, domain, lower, answers)
    {
      ReconcilingChangesNoAnswer(start[arn], endpoint, domain, lower, answers);
      assert before[arn].domain == start[arn].domain;
    }
  }
}
