// The manifest store of sim/oci.go: one keyed store for all registry scopes,
// with two rows for a tagged manifest. It refines, repository by repository,
// content by digest plus tags to digests.

module OciRegistry {
  import opened Common
  import opened ByteOrder
  import opened OrderedIdLists

  const SLASH: Byte := 47
  const COLON: Byte := 58
  /** "sha256:" */
  const SHA256: Id := [115, 104, 97, 50, 53, 54, 58]

  /** One repository of one registry. */
  datatype Space = Space(scope: Id, repo: Id)

  datatype Manifest = Manifest(space: Space, ref: Id, digest: Id, data: seq<Byte>, contentType: Id)

  type Rows = map<Id, Manifest>

  /** SHA-256 of the content, as "sha256:" and its hex form. */
  type Digester = seq<Byte> -> Id

  /** What the digest is assumed to be: recognizable by its prefix and free of collisions. */
  ghost predicate GoodDigest(digest: Digester) {
    && (forall d: seq<Byte> :: SHA256 <= digest(d))
    && (forall d, e: seq<Byte> :: digest(d) == digest(e) ==> d == e)
  }

  predicate IsTag(ref: Id) {
    !(SHA256 <= ref)
  }

  // Keys.

  /** The key of a reference is the repository's key prefix and the reference. */
  function KeyPrefix(sp: Space): (p: Id) {
    (if sp.scope == [] then sp.repo else sp.scope + [SLASH] + sp.repo) + [COLON]
  }

  function Key(sp: Space, ref: Id): (k: Id) {
    KeyPrefix(sp) + ref
  }

  /** No reference of one repository can compose a key of the other. */
  predicate Apart(a: Space, b: Space) {
    !(KeyPrefix(a) <= KeyPrefix(b)) && !(KeyPrefix(b) <= KeyPrefix(a))
  }

  lemma SameRepositoryKeys(sp: Space, r: Id, q: Id)
    ensures Key(sp, r) == Key(sp, q) <==> r == q
  {
    assert Key(sp, r)[|KeyPrefix(sp)|..] == r && Key(sp, q)[|KeyPrefix(sp)|..] == q;
  }

  lemma PrefixesOfOneKey(p: Id, q: Id, k: Id)
    requires p <= k && q <= k
    ensures p <= q || q <= p
  {
    assert p == k[..|p|] && q == k[..|q|];
  }

  /** Two repositories are apart exactly when no two of their keys are ever equal. */
  lemma ApartExactlyWhenKeysNeverMeet(a: Space, b: Space)
    ensures Apart(a, b) <==> forall r: Id, q: Id :: Key(a, r) != Key(b, q)
  {
    if Apart(a, b) {
      forall r: Id, q: Id
        ensures Key(a, r) != Key(b, q)
      {
        if Key(a, r) == Key(b, q) {
          PrefixesOfOneKey(KeyPrefix(a), KeyPrefix(b), Key(a, r));
        }
      }
    } else if KeyPrefix(a) <= KeyPrefix(b) {
      assert Key(a, KeyPrefix(b)[|KeyPrefix(a)|..]) == Key(b, []);
    } else {
      assert Key(a, []) == Key(b, KeyPrefix(a)[|KeyPrefix(b)|..]);
    }
  }

  /** Neither registry identity extends the other past a separator. */
  predicate ScopesApart(s: Id, t: Id) {
    s != [] && t != [] && !(s + [SLASH] <= t + [SLASH]) && !(t + [SLASH] <= s + [SLASH])
  }

  /** The naming discipline that keeps repositories apart: no colon in a name, and separate registry identities. */
  lemma WellNamedRepositoriesAreApart(a: Space, b: Space)
    requires a != b && COLON !in a.repo && COLON !in b.repo
    requires a.scope == b.scope || ScopesApart(a.scope, b.scope)
    ensures Apart(a, b)
  {
    if a.scope == b.scope {
      if KeyPrefix(a) <= KeyPrefix(b) {
        ColonEndsTheName(a, b);
      }
      if KeyPrefix(b) <= KeyPrefix(a) {
        ColonEndsTheName(b, a);
      }
    } else {
      var sa, sb := a.scope + [SLASH], b.scope + [SLASH];
      assert KeyPrefix(a) == sa + (a.repo + [COLON]) && KeyPrefix(b) == sb + (b.repo + [COLON]);
      if KeyPrefix(a) <= KeyPrefix(b) {
        PrefixesOfOneKey(sa, sb, KeyPrefix(b));
      } else if KeyPrefix(b) <= KeyPrefix(a) {
        PrefixesOfOneKey(sa, sb, KeyPrefix(a));
      }
    }
  }

  lemma ColonEndsTheName(a: Space, b: Space)
    requires a.scope == b.scope && COLON !in a.repo && COLON !in b.repo && KeyPrefix(a) <= KeyPrefix(b)
    ensures a == b
  {
    var base := if a.scope == [] then [] else a.scope + [SLASH];
    assert KeyPrefix(a) == base + (a.repo + [COLON]) && KeyPrefix(b) == base + (b.repo + [COLON]);
    PrefixPastBase(base, a.repo + [COLON], b.repo + [COLON]);
    NamesEndAtTheirColon(a.repo, b.repo);
  }

  lemma PrefixPastBase(base: Id, p: Id, q: Id)
    requires base + p <= base + q
    ensures p <= q
  {
    assert forall i :: 0 <= i < |p| ==> p[i] == (base + p)[|base| + i] == (base + q)[|base| + i];
  }

  lemma NamesEndAtTheirColon(p: Id, q: Id)
    requires COLON !in p && COLON !in q && p + [COLON] <= q + [COLON]
    ensures p == q
  {
    assert forall i :: 0 <= i < |q| ==> q[i] in q;
    assert (p + [COLON])[|p|] == (q + [COLON])[|p|];
    assert |p| == |q|;
    assert forall i :: 0 <= i < |p| ==> p[i] == (p + [COLON])[i] == (q + [COLON])[i];
  }

  /** Without it two repositories can share a key: "a:sha256" at "x", and "a" at "sha256:x". */
  lemma ColonInANameSharesKeys()
    ensures Key(Space([], [97] + [COLON] + SHA256[..6]), [120]) == Key(Space([], [97]), SHA256 + [120])
  {
  }

  // The invariant.

  ghost predicate Separate(spaces: set<Space>) {
    forall a, b :: a in spaces && b in spaces && a != b ==> Apart(a, b)
  }

  /** A row sits at the key its own fields compose, is named for its content, and has its digest row. */
  ghost predicate RowOk(rows: Rows, digest: Digester, spaces: set<Space>, k: Id)
    requires k in rows
  {
    var m := rows[k];
    && m.space in spaces && k == Key(m.space, m.ref)
    && m.digest == digest(m.data)
    && (IsTag(m.ref) || m.ref == m.digest)
    && Key(m.space, m.digest) in rows && rows[Key(m.space, m.digest)].data == m.data
  }

  ghost predicate Inv(rows: Rows, digest: Digester, spaces: set<Space>) {
    forall k :: k in rows ==> RowOk(rows, digest, spaces, k)
  }

  lemma InvRow(rows: Rows, digest: Digester, spaces: set<Space>, k: Id)
    requires Inv(rows, digest, spaces) && k in rows
    ensures RowOk(rows, digest, spaces, k)
  {
  }

  /** Equal keys of known repositories name the same repository and reference. */
  lemma KeysName(spaces: set<Space>, a: Space, r: Id, b: Space, q: Id)
    requires Separate(spaces) && a in spaces && b in spaces && Key(a, r) == Key(b, q)
    ensures a == b && r == q
  {
    if a != b {
      assert Apart(a, b);
      ApartExactlyWhenKeysNeverMeet(a, b);
    }
    SameRepositoryKeys(a, r, q);
  }

  /** A row is found again by its repository and reference. */
  lemma RowsAreFoundByName(rows: Rows, digest: Digester, spaces: set<Space>, sp: Space, ref: Id)
    requires Inv(rows, digest, spaces) && Separate(spaces) && sp in spaces && Key(sp, ref) in rows
    ensures rows[Key(sp, ref)].space == sp && rows[Key(sp, ref)].ref == ref
  {
    hide Key, Separate, Inv;
    InvRow(rows, digest, spaces, Key(sp, ref));
    KeysName(spaces, rows[Key(sp, ref)].space, rows[Key(sp, ref)].ref, sp, ref);
  }

  lemma DigestFacts(digest: Digester, d: seq<Byte>, e: seq<Byte>)
    requires GoodDigest(digest)
    ensures !IsTag(digest(d)) && (digest(d) == digest(e) ==> d == e)
  {
  }

  // The operations on the rows.

  function AfterPut(rows: Rows, digest: Digester, sp: Space, ref: Id, contentType: Id, data: seq<Byte>): (after: Rows) {
    var m := Manifest(sp, ref, digest(data), data, contentType);
    rows[Key(sp, ref) := m][Key(sp, m.digest) := m.(ref := m.digest)]
  }

  /** Every alias of one digest in one repository is gone. */
  function WithoutDigest(rows: Rows, sp: Space, d: Id): (after: Rows) {
    map k | k in rows && !(rows[k].space == sp && rows[k].digest == d) :: rows[k]
  }

  function AfterDelete(rows: Rows, sp: Space, ref: Id): (after: Rows) {
    if Key(sp, ref) in rows then WithoutDigest(rows, sp, rows[Key(sp, ref)].digest) else rows
  }

  function AfterDeleteTag(rows: Rows, sp: Space, ref: Id): (after: Rows) {
    rows - {Key(sp, ref)}
  }

  /** A row the PUT did not write keeps its digest row. */
  lemma PutKeepsOtherRows(rows: Rows, digest: Digester, spaces: set<Space>, sp: Space, ref: Id, contentType: Id, data: seq<Byte>, k: Id)
    requires GoodDigest(digest) && Separate(spaces) && sp in spaces && (IsTag(ref) || ref == digest(data))
    requires k in rows && RowOk(rows, digest, spaces, k) && k != Key(sp, ref) && k != Key(sp, digest(data))
    ensures RowOk(AfterPut(rows, digest, sp, ref, contentType, data), digest, spaces, k)
  {
    hide Key, Separate, GoodDigest, IsTag;
    var m := rows[k];
    DigestFacts(digest, m.data, data);
    if Key(m.space, m.digest) == Key(sp, digest(data)) {
      KeysName(spaces, m.space, m.digest, sp, digest(data));
    } else if Key(m.space, m.digest) == Key(sp, ref) {
      KeysName(spaces, m.space, m.digest, sp, ref);
    }
  }

  /** The rows a PUT writes are as they should be. */
  lemma PutRowsAreOk(rows: Rows, digest: Digester, spaces: set<Space>, sp: Space, ref: Id, contentType: Id, data: seq<Byte>)
    requires sp in spaces && (IsTag(ref) || ref == digest(data))
    ensures var after := AfterPut(rows, digest, sp, ref, contentType, data);
      && Key(sp, ref) in after && RowOk(after, digest, spaces, Key(sp, ref))
      && Key(sp, digest(data)) in after && RowOk(after, digest, spaces, Key(sp, digest(data)))
  {
    hide Key, IsTag;
    SameRepositoryKeys(sp, ref, digest(data));
  }

  lemma PutAddsTwoKeys(rows: Rows, digest: Digester, sp: Space, ref: Id, contentType: Id, data: seq<Byte>)
    ensures AfterPut(rows, digest, sp, ref, contentType, data).Keys == rows.Keys + {Key(sp, ref), Key(sp, digest(data))}
  {
    hide Key;
  }

  lemma PutKeepsInv(rows: Rows, digest: Digester, spaces: set<Space>, sp: Space, ref: Id, contentType: Id, data: seq<Byte>)
    requires GoodDigest(digest) && Separate(spaces) && Inv(rows, digest, spaces) && sp in spaces
    requires IsTag(ref) || ref == digest(data)
    ensures Inv(AfterPut(rows, digest, sp, ref, contentType, data), digest, spaces)
  {
    hide Key, Separate, GoodDigest, IsTag, RowOk, AfterPut;
    var after := AfterPut(rows, digest, sp, ref, contentType, data);
    PutAddsTwoKeys(rows, digest, sp, ref, contentType, data);
    PutRowsAreOk(rows, digest, spaces, sp, ref, contentType, data);
    forall k | k in after
      ensures RowOk(after, digest, spaces, k)
    {
      if k != Key(sp, ref) && k != Key(sp, digest(data)) {
        PutKeepsOtherRows(rows, digest, spaces, sp, ref, contentType, data, k);
      }
    }
  }

  /** A row that is left keeps its digest row: they have the same digest. */
  lemma DeleteKeepsRow(rows: Rows, digest: Digester, spaces: set<Space>, sp: Space, d: Id, k: Id)
    requires Separate(spaces) && Inv(rows, digest, spaces) && k in WithoutDigest(rows, sp, d)
    ensures RowOk(WithoutDigest(rows, sp, d), digest, spaces, k)
  {
    hide Key, Separate, IsTag, Inv;
    var m := rows[k];
    InvRow(rows, digest, spaces, k);
    InvRow(rows, digest, spaces, Key(m.space, m.digest));
    RowsAreFoundByName(rows, digest, spaces, m.space, m.digest);
  }

  lemma DeleteKeepsInv(rows: Rows, digest: Digester, spaces: set<Space>, sp: Space, ref: Id)
    requires Separate(spaces) && Inv(rows, digest, spaces) && sp in spaces
    ensures Inv(AfterDelete(rows, sp, ref), digest, spaces)
  {
    hide Key, Separate, IsTag, RowOk, WithoutDigest;
    if Key(sp, ref) in rows {
      var d := rows[Key(sp, ref)].digest;
      forall k | k in WithoutDigest(rows, sp, d)
        ensures RowOk(WithoutDigest(rows, sp, d), digest, spaces, k)
      {
        DeleteKeepsRow(rows, digest, spaces, sp, d, k);
      }
    }
  }

  /** No tag of the repository names the digest. */
  ghost predicate Untagged(rows: Rows, sp: Space, d: Id) {
    forall k :: k in rows && rows[k].space == sp && rows[k].digest == d ==> rows[k].ref == d
  }

  lemma DeleteTagKeepsRow(rows: Rows, digest: Digester, spaces: set<Space>, sp: Space, ref: Id, k: Id)
    requires GoodDigest(digest) && Separate(spaces) && Inv(rows, digest, spaces) && sp in spaces
    requires IsTag(ref) || Key(sp, ref) !in rows || Untagged(rows, sp, ref)
    requires k in AfterDeleteTag(rows, sp, ref)
    ensures RowOk(AfterDeleteTag(rows, sp, ref), digest, spaces, k)
  {
    hide Key, Separate, GoodDigest, IsTag, Inv;
    InvRow(rows, digest, spaces, k);
    var m := rows[k];
    DigestFacts(digest, m.data, m.data);
    if Key(m.space, m.digest) == Key(sp, ref) {
      KeysName(spaces, m.space, m.digest, sp, ref);
    }
  }

  lemma DeleteTagKeepsInv(rows: Rows, digest: Digester, spaces: set<Space>, sp: Space, ref: Id)
    requires GoodDigest(digest) && Separate(spaces) && Inv(rows, digest, spaces) && sp in spaces
    requires IsTag(ref) || Key(sp, ref) !in rows || Untagged(rows, sp, ref)
    ensures Inv(AfterDeleteTag(rows, sp, ref), digest, spaces)
  {
    hide Key, Separate, GoodDigest, IsTag, RowOk, Untagged;
    forall k | k in AfterDeleteTag(rows, sp, ref)
      ensures RowOk(AfterDeleteTag(rows, sp, ref), digest, spaces, k)
    {
      DeleteTagKeepsRow(rows, digest, spaces, sp, ref, k);
    }
  }

  /**
   * DeleteTagOnly keeps the registry whole exactly when it is given a tag, or a
   * reference that is not there, or a digest no tag names.
   */
  lemma DeleteTagKeepsInvExactlyWhen(rows: Rows, digest: Digester, spaces: set<Space>, sp: Space, ref: Id)
    requires GoodDigest(digest) && Separate(spaces) && Inv(rows, digest, spaces) && sp in spaces
    ensures Inv(AfterDeleteTag(rows, sp, ref), digest, spaces)
       <==> IsTag(ref) || Key(sp, ref) !in rows || Untagged(rows, sp, ref)
  {
    hide Key, Separate, GoodDigest, IsTag;
    if IsTag(ref) || Key(sp, ref) !in rows || Untagged(rows, sp, ref) {
      DeleteTagKeepsInv(rows, digest, spaces, sp, ref);
    } else {
      var k :| k in rows && rows[k].space == sp && rows[k].digest == ref && rows[k].ref != ref;
      InvRow(rows, digest, spaces, k);
      RowsAreFoundByName(rows, digest, spaces, sp, ref);
      assert k in AfterDeleteTag(rows, sp, ref);
      assert !RowOk(AfterDeleteTag(rows, sp, ref), digest, spaces, k);
    }
  }

  /**
   * A PUT keeps the registry whole exactly when its reference is a tag or the
   * content's own digest: the code stores content under a foreign digest as is.
   */
  lemma PutKeepsInvExactlyWhen(rows: Rows, digest: Digester, spaces: set<Space>, sp: Space, ref: Id, contentType: Id, data: seq<Byte>)
    requires GoodDigest(digest) && Separate(spaces) && Inv(rows, digest, spaces) && sp in spaces
    ensures Inv(AfterPut(rows, digest, sp, ref, contentType, data), digest, spaces) <==> IsTag(ref) || ref == digest(data)
  {
    if IsTag(ref) || ref == digest(data) {
      PutKeepsInv(rows, digest, spaces, sp, ref, contentType, data);
    } else {
      SameRepositoryKeys(sp, ref, digest(data));
      var after := AfterPut(rows, digest, sp, ref, contentType, data);
      assert !RowOk(after, digest, spaces, Key(sp, ref));
    }
  }

  /** A PUT under the digest a tag names makes the tag and its digest serve different bytes. */
  lemma ForeignDigestServesOtherBytes(rows: Rows, digest: Digester, spaces: set<Space>, sp: Space, tag: Id, contentType: Id, data: seq<Byte>)
    requires GoodDigest(digest) && Separate(spaces) && Inv(rows, digest, spaces) && sp in spaces
    requires IsTag(tag) && Key(sp, tag) in rows && data != rows[Key(sp, tag)].data
    ensures var d := rows[Key(sp, tag)].digest; var after := AfterPut(rows, digest, sp, d, contentType, data);
      && Key(sp, tag) in after && after[Key(sp, tag)].digest == d && Key(sp, d) in after
      && after[Key(sp, tag)].data != after[Key(sp, d)].data == data
  {
    hide Key, Separate, GoodDigest, IsTag, Inv;
    var d := rows[Key(sp, tag)].digest;
    InvRow(rows, digest, spaces, Key(sp, tag));
    DigestFacts(digest, rows[Key(sp, tag)].data, data);
    DigestFacts(digest, data, data);
    SameRepositoryKeys(sp, tag, d);
    SameRepositoryKeys(sp, tag, digest(data));
    SameRepositoryKeys(sp, d, digest(data));
  }

  // What the rows mean.

  /** One repository: content by digest, and tags to digests. */
  datatype Repository = Repository(content: map<Id, seq<Byte>>, tags: map<Id, Id>)

  ghost function RefsOf(rows: Rows, sp: Space): (refs: set<Id>) {
    set k | k in rows && rows[k].space == sp :: rows[k].ref
  }

  ghost function Meaning(rows: Rows, sp: Space): (r: Repository) {
    Repository(map d | d in RefsOf(rows, sp) && !IsTag(d) && Key(sp, d) in rows :: rows[Key(sp, d)].data,
               map t | t in RefsOf(rows, sp) && IsTag(t) && Key(sp, t) in rows :: rows[Key(sp, t)].digest)
  }

  ghost function PutMeans(r: Repository, ref: Id, d: Id, data: seq<Byte>): (r': Repository) {
    Repository(r.content[d := data], if IsTag(ref) then r.tags[ref := d] else r.tags)
  }

  ghost function DeleteMeans(r: Repository, d: Id): (r': Repository) {
    Repository(r.content - {d}, map t | t in r.tags && r.tags[t] != d :: r.tags[t])
  }

  /** In a whole registry the references of a repository are the keys found by name. */
  lemma RefsAreTheKeys(rows: Rows, digest: Digester, spaces: set<Space>, sp: Space, ref: Id)
    requires Inv(rows, digest, spaces) && Separate(spaces) && sp in spaces
    ensures ref in RefsOf(rows, sp) <==> Key(sp, ref) in rows
  {
    hide Key, Separate, IsTag, Inv;
    if Key(sp, ref) in rows {
      RowsAreFoundByName(rows, digest, spaces, sp, ref);
    }
    if ref in RefsOf(rows, sp) {
      var k :| k in rows && rows[k].space == sp && rows[k].ref == ref;
      InvRow(rows, digest, spaces, k);
    }
  }

  /** A repository agrees with the rows about one reference. */
  ghost predicate ReadsAt(r: Repository, rows: Rows, sp: Space, q: Id) {
    && (q in r.content <==> !IsTag(q) && Key(sp, q) in rows)
    && (q in r.content ==> r.content[q] == rows[Key(sp, q)].data)
    && (q in r.tags <==> IsTag(q) && Key(sp, q) in rows)
    && (q in r.tags ==> r.tags[q] == rows[Key(sp, q)].digest)
  }

  /** The meaning, read off the keys. */
  lemma MeaningByName(rows: Rows, digest: Digester, spaces: set<Space>, sp: Space, q: Id)
    requires Inv(rows, digest, spaces) && Separate(spaces) && sp in spaces
    ensures ReadsAt(Meaning(rows, sp), rows, sp, q)
  {
    hide Key, Separate, IsTag, Inv;
    RefsAreTheKeys(rows, digest, spaces, sp, q);
  }

  /** A repository that agrees with the rows about every reference is their meaning. */
  lemma MeaningIsUnique(r: Repository, rows: Rows, digest: Digester, spaces: set<Space>, sp: Space)
    requires Inv(rows, digest, spaces) && Separate(spaces) && sp in spaces
    requires forall q: Id :: ReadsAt(r, rows, sp, q)
    ensures Meaning(rows, sp) == r
  {
    hide Key, Separate, IsTag, Meaning, Inv;
    var m := Meaning(rows, sp);
    forall q: Id
      ensures q in m.content <==> q in r.content
      ensures q in r.content ==> m.content[q] == r.content[q]
      ensures q in m.tags <==> q in r.tags
      ensures q in r.tags ==> m.tags[q] == r.tags[q]
    {
      MeaningByName(rows, digest, spaces, sp, q);
      assert ReadsAt(r, rows, sp, q);
    }
    assert m.content == r.content && m.tags == r.tags;
  }

  /** Content is stored under its own digest, and a tag names content that is there. */
  lemma TagsNameContent(rows: Rows, digest: Digester, spaces: set<Space>, sp: Space, q: Id)
    requires GoodDigest(digest) && Inv(rows, digest, spaces) && Separate(spaces) && sp in spaces
    ensures q in Meaning(rows, sp).content ==> q == digest(Meaning(rows, sp).content[q])
    ensures q in Meaning(rows, sp).tags ==> Meaning(rows, sp).tags[q] in Meaning(rows, sp).content
  {
    hide Key, Separate, GoodDigest, IsTag, Meaning;
    MeaningByName(rows, digest, spaces, sp, q);
    if Key(sp, q) in rows {
      RowsAreFoundByName(rows, digest, spaces, sp, q);
      InvRow(rows, digest, spaces, Key(sp, q));
      DigestFacts(digest, rows[Key(sp, q)].data, rows[Key(sp, q)].data);
      MeaningByName(rows, digest, spaces, sp, rows[Key(sp, q)].digest);
    }
  }

  /** A GET by tag and a GET by the digest it names return the same bytes. */
  lemma TagAndDigestServeTheSameBytes(rows: Rows, digest: Digester, spaces: set<Space>, sp: Space, tag: Id)
    requires GoodDigest(digest) && Inv(rows, digest, spaces) && Separate(spaces) && sp in spaces
    requires IsTag(tag) && Key(sp, tag) in rows
    ensures var named := rows[Key(sp, tag)].digest;
      Key(sp, named) in rows && rows[Key(sp, tag)].data == rows[Key(sp, named)].data
  {
    RowsAreFoundByName(rows, digest, spaces, sp, tag);
    InvRow(rows, digest, spaces, Key(sp, tag));
  }

  // Each operation does to the meaning what it should, and nothing to any other repository.

  lemma PutRefines(rows: Rows, digest: Digester, spaces: set<Space>, sp: Space, ref: Id, contentType: Id, data: seq<Byte>)
    requires GoodDigest(digest) && Separate(spaces) && Inv(rows, digest, spaces) && sp in spaces
    requires IsTag(ref) || ref == digest(data)
    ensures Meaning(AfterPut(rows, digest, sp, ref, contentType, data), sp) == PutMeans(Meaning(rows, sp), ref, digest(data), data)
  {
    hide Key, Separate, GoodDigest, IsTag, Meaning, Inv;
    var after, r := AfterPut(rows, digest, sp, ref, contentType, data), PutMeans(Meaning(rows, sp), ref, digest(data), data);
    PutKeepsInv(rows, digest, spaces, sp, ref, contentType, data);
    DigestFacts(digest, data, data);
    forall q: Id
      ensures ReadsAt(r, after, sp, q)
    {
      MeaningByName(rows, digest, spaces, sp, q);
      SameRepositoryKeys(sp, q, ref);
      SameRepositoryKeys(sp, q, digest(data));
    }
    MeaningIsUnique(r, after, digest, spaces, sp);
  }

  lemma DeleteReadsAt(rows: Rows, digest: Digester, spaces: set<Space>, sp: Space, ref: Id, q: Id)
    requires Separate(spaces) && Inv(rows, digest, spaces) && sp in spaces && Key(sp, ref) in rows
    ensures ReadsAt(DeleteMeans(Meaning(rows, sp), rows[Key(sp, ref)].digest), AfterDelete(rows, sp, ref), sp, q)
  {
    hide Key, Separate, IsTag, Meaning, Inv;
    MeaningByName(rows, digest, spaces, sp, q);
    if Key(sp, q) in rows {
      RowsAreFoundByName(rows, digest, spaces, sp, q);
      InvRow(rows, digest, spaces, Key(sp, q));
    }
  }

  lemma DeleteRefines(rows: Rows, digest: Digester, spaces: set<Space>, sp: Space, ref: Id)
    requires Separate(spaces) && Inv(rows, digest, spaces) && sp in spaces && Key(sp, ref) in rows
    ensures Meaning(AfterDelete(rows, sp, ref), sp) == DeleteMeans(Meaning(rows, sp), rows[Key(sp, ref)].digest)
  {
    hide Key, Separate, IsTag, Meaning, Inv, AfterDelete, DeleteMeans, ReadsAt;
    var r := DeleteMeans(Meaning(rows, sp), rows[Key(sp, ref)].digest);
    DeleteKeepsInv(rows, digest, spaces, sp, ref);
    forall q: Id
      ensures ReadsAt(r, AfterDelete(rows, sp, ref), sp, q)
    {
      DeleteReadsAt(rows, digest, spaces, sp, ref, q);
    }
    MeaningIsUnique(r, AfterDelete(rows, sp, ref), digest, spaces, sp);
  }

  lemma DeleteTagRefines(rows: Rows, digest: Digester, spaces: set<Space>, sp: Space, tag: Id)
    requires GoodDigest(digest) && Separate(spaces) && Inv(rows, digest, spaces) && sp in spaces && IsTag(tag)
    ensures Meaning(AfterDeleteTag(rows, sp, tag), sp) == Repository(Meaning(rows, sp).content, Meaning(rows, sp).tags - {tag})
  {
    hide Key, Separate, GoodDigest, IsTag, Meaning, Inv;
    var after := AfterDeleteTag(rows, sp, tag);
    var r := Repository(Meaning(rows, sp).content, Meaning(rows, sp).tags - {tag});
    DeleteTagKeepsInv(rows, digest, spaces, sp, tag);
    forall q: Id
      ensures ReadsAt(r, after, sp, q)
    {
      MeaningByName(rows, digest, spaces, sp, q);
      SameRepositoryKeys(sp, q, tag);
    }
    MeaningIsUnique(r, after, digest, spaces, sp);
  }

  /** The same rows for a repository give it the same meaning. */
  lemma OnlyOwnRowsMatter(rows: Rows, after: Rows, digest: Digester, spaces: set<Space>, other: Space)
    requires Separate(spaces) && other in spaces && Inv(rows, digest, spaces) && Inv(after, digest, spaces)
    requires forall q: Id :: Key(other, q) in after <==> Key(other, q) in rows
    requires forall q: Id :: Key(other, q) in rows ==> after[Key(other, q)] == rows[Key(other, q)]
    ensures Meaning(after, other) == Meaning(rows, other)
  {
    hide Key, Separate, IsTag, Meaning, Inv;
    forall q: Id
      ensures ReadsAt(Meaning(rows, other), after, other, q)
    {
      MeaningByName(rows, digest, spaces, other, q);
    }
    MeaningIsUnique(Meaning(rows, other), after, digest, spaces, other);
  }

  lemma PutLeavesOthersAlone(rows: Rows, digest: Digester, spaces: set<Space>, sp: Space, ref: Id, contentType: Id, data: seq<Byte>, other: Space)
    requires GoodDigest(digest) && Separate(spaces) && Inv(rows, digest, spaces) && sp in spaces && other in spaces && other != sp
    requires IsTag(ref) || ref == digest(data)
    ensures Meaning(AfterPut(rows, digest, sp, ref, contentType, data), other) == Meaning(rows, other)
  {
    hide Key, GoodDigest, IsTag, Inv, Meaning;
    PutKeepsInv(rows, digest, spaces, sp, ref, contentType, data);
    ApartExactlyWhenKeysNeverMeet(sp, other);
    OnlyOwnRowsMatter(rows, AfterPut(rows, digest, sp, ref, contentType, data), digest, spaces, other);
  }

  lemma DeleteLeavesOthersAlone(rows: Rows, digest: Digester, spaces: set<Space>, sp: Space, ref: Id, other: Space)
    requires Separate(spaces) && Inv(rows, digest, spaces) && sp in spaces && other in spaces && other != sp
    ensures Meaning(AfterDelete(rows, sp, ref), other) == Meaning(rows, other)
  {
    hide Key, IsTag, Inv, Meaning;
    DeleteKeepsInv(rows, digest, spaces, sp, ref);
    forall q: Id | Key(other, q) in rows
      ensures rows[Key(other, q)].space == other
    {
      RowsAreFoundByName(rows, digest, spaces, other, q);
    }
    OnlyOwnRowsMatter(rows, AfterDelete(rows, sp, ref), digest, spaces, other);
  }

  lemma DeleteTagLeavesOthersAlone(rows: Rows, digest: Digester, spaces: set<Space>, sp: Space, tag: Id, other: Space)
    requires GoodDigest(digest) && Separate(spaces) && Inv(rows, digest, spaces) && sp in spaces && other in spaces && other != sp
    requires IsTag(tag)
    ensures Meaning(AfterDeleteTag(rows, sp, tag), other) == Meaning(rows, other)
  {
    hide Key, GoodDigest, IsTag;
    DeleteTagKeepsInv(rows, digest, spaces, sp, tag);
    ApartExactlyWhenKeysNeverMeet(sp, other);
    OnlyOwnRowsMatter(rows, AfterDeleteTag(rows, sp, tag), digest, spaces, other);
  }

  // Whole runs.

  datatype Request =
    | Put(space: Space, ref: Id, contentType: Id, data: seq<Byte>)
    | Delete(space: Space, ref: Id)
    | DeleteTag(space: Space, tag: Id)

  function Served(rows: Rows, digest: Digester, requests: seq<Request>, n: nat): (after: Rows)
    requires n <= |requests|
  {
    if n == 0 then rows
    else
      var before := Served(rows, digest, requests, n - 1);
      match requests[n - 1]
      case Put(sp, ref, contentType, data) => AfterPut(before, digest, sp, ref, contentType, data)
      case Delete(sp, ref) => AfterDelete(before, sp, ref)
      case DeleteTag(sp, tag) => AfterDeleteTag(before, sp, tag)
  }

  /** What a client may ask: a known repository, a reference that is a tag or names the content, a tag to untag. */
  ghost predicate Proper(digest: Digester, spaces: set<Space>, req: Request) {
    && req.space in spaces
    && (req.Put? ==> IsTag(req.ref) || req.ref == digest(req.data))
    && (req.DeleteTag? ==> IsTag(req.tag))
  }

  /** The digest a reference stands for in a repository that holds it. */
  ghost predicate Resolves(r: Repository, ref: Id) {
    if IsTag(ref) then ref in r.tags else ref in r.content
  }

  ghost function Resolve(r: Repository, ref: Id): (d: Id)
    requires Resolves(r, ref)
  {
    if IsTag(ref) then r.tags[ref] else ref
  }

  /** One request as a repository sees it, with no mention of rows or keys. */
  ghost function Means(r: Repository, sp: Space, digest: Digester, req: Request): (r': Repository) {
    if req.space != sp then r
    else match req
      case Put(_, ref, _, data) => PutMeans(r, ref, digest(data), data)
      case Delete(_, ref) => if Resolves(r, ref) then DeleteMeans(r, Resolve(r, ref)) else r
      case DeleteTag(_, tag) => Repository(r.content, r.tags - {tag})
  }

  ghost function AllMean(r: Repository, sp: Space, digest: Digester, requests: seq<Request>, n: nat): (r': Repository)
    requires n <= |requests|
  {
    if n == 0 then r else Means(AllMean(r, sp, digest, requests, n - 1), sp, digest, requests[n - 1])
  }

  lemma ReferencesResolve(rows: Rows, digest: Digester, spaces: set<Space>, sp: Space, ref: Id)
    requires Separate(spaces) && Inv(rows, digest, spaces) && sp in spaces
    ensures Resolves(Meaning(rows, sp), ref) <==> Key(sp, ref) in rows
    ensures Key(sp, ref) in rows ==> Resolve(Meaning(rows, sp), ref) == rows[Key(sp, ref)].digest
  {
    hide Key, Separate, IsTag, Meaning;
    MeaningByName(rows, digest, spaces, sp, ref);
    if Key(sp, ref) in rows {
      RowsAreFoundByName(rows, digest, spaces, sp, ref);
      InvRow(rows, digest, spaces, Key(sp, ref));
    }
  }

  lemma RequestRefines(rows: Rows, digest: Digester, spaces: set<Space>, req: Request, sp: Space)
    requires GoodDigest(digest) && Separate(spaces) && Inv(rows, digest, spaces) && Proper(digest, spaces, req) && sp in spaces
    ensures Inv(Served(rows, digest, [req], 1), digest, spaces)
    ensures Meaning(Served(rows, digest, [req], 1), sp) == Means(Meaning(rows, sp), sp, digest, req)
  {
    hide Key, Separate, GoodDigest, IsTag, Inv, Meaning, AfterPut, AfterDelete, AfterDeleteTag, Resolves, Resolve;
    assert Served(rows, digest, [req], 0) == rows;
    match req
    case Put(own, ref, contentType, data) =>
      PutKeepsInv(rows, digest, spaces, own, ref, contentType, data);
      if own == sp {
        PutRefines(rows, digest, spaces, own, ref, contentType, data);
      } else {
        PutLeavesOthersAlone(rows, digest, spaces, own, ref, contentType, data, sp);
      }
    case Delete(own, ref) =>
      DeleteKeepsInv(rows, digest, spaces, own, ref);
      ReferencesResolve(rows, digest, spaces, own, ref);
      if own != sp {
        DeleteLeavesOthersAlone(rows, digest, spaces, own, ref, sp);
      } else if Key(sp, ref) in rows {
        DeleteRefines(rows, digest, spaces, own, ref);
      } else {
        DeleteOfNothing(rows, sp, ref);
      }
    case DeleteTag(own, tag) =>
      DeleteTagKeepsInv(rows, digest, spaces, own, tag);
      if own == sp {
        DeleteTagRefines(rows, digest, spaces, own, tag);
      } else {
        DeleteTagLeavesOthersAlone(rows, digest, spaces, own, tag, sp);
      }
  }

  lemma DeleteOfNothing(rows: Rows, sp: Space, ref: Id)
    requires Key(sp, ref) !in rows
    ensures AfterDelete(rows, sp, ref) == rows
  {
  }

  /**
   * Every run of proper requests keeps the registry whole, and each repository
   * is exactly what the requests addressed to it make of content and tags.
   */
  lemma {:induction false} RunRefines(rows: Rows, digest: Digester, spaces: set<Space>, requests: seq<Request>, n: nat, sp: Space)
    requires GoodDigest(digest) && Separate(spaces) && Inv(rows, digest, spaces) && sp in spaces && n <= |requests|
    requires forall i :: 0 <= i < |requests| ==> Proper(digest, spaces, requests[i])
    ensures Inv(Served(rows, digest, requests, n), digest, spaces)
    ensures Meaning(Served(rows, digest, requests, n), sp) == AllMean(Meaning(rows, sp), sp, digest, requests, n)
    decreases n
  {
    hide Separate, GoodDigest, Inv, Meaning, Means, Proper;
    if n > 0 {
      RunRefines(rows, digest, spaces, requests, n - 1, sp);
      var before := Served(rows, digest, requests, n - 1);
      RequestRefines(before, digest, spaces, requests[n - 1], sp);
      assert Served(before, digest, [requests[n - 1]], 0) == before;
      assert Served(before, digest, [requests[n - 1]], 1) == Served(rows, digest, requests, n);
    }
  }

  /** The keys of the rows of one digest in one repository. */
  function AliasesOf(rows: Rows, sp: Space, d: Id): (keys: set<Id>)
    ensures forall k :: k in keys ==> k in rows
  {
    set k | k in rows && rows[k].space == sp && rows[k].digest == d
  }

  /** The rows of one digest are deleted by their references, the given one among them. */
  lemma AliasesAreDoomed(rows: Rows, digest: Digester, spaces: set<Space>, sp: Space, ref: Id)
    requires Separate(spaces) && Inv(rows, digest, spaces) && sp in spaces && Key(sp, ref) in rows
    ensures var doomed := AliasesOf(rows, sp, rows[Key(sp, ref)].digest);
      && (forall k :: k in doomed ==> k == Key(sp, rows[k].ref))
      && Key(sp, ref) in doomed && rows - doomed == AfterDelete(rows, sp, ref)
  {
    hide Key, Separate, IsTag, Inv;
    RowsAreFoundByName(rows, digest, spaces, sp, ref);
    forall k | k in rows && rows[k].space == sp
      ensures k == Key(sp, rows[k].ref)
    {
      InvRow(rows, digest, spaces, k);
    }
  }

  // The registry.

  datatype Found = Unknown | Answer(contentType: Id, digest: Id, data: seq<Byte>)

  /** A manifest the hydration hook stores, and what the hook does on a miss. */
  datatype Hydrating = Hydrating(ref: Id, contentType: Id, data: seq<Byte>)

  datatype Hydration = Hydration(puts: seq<Hydrating>, lookAgain: bool)

  predicate ProperPut(digest: Digester, put: Hydrating) {
    IsTag(put.ref) || put.ref == digest(put.data)
  }

  function Hydrated(rows: Rows, digest: Digester, sp: Space, puts: seq<Hydrating>, n: nat): (after: Rows)
    requires n <= |puts|
  {
    if n == 0 then rows
    else AfterPut(Hydrated(rows, digest, sp, puts, n - 1), digest, sp, puts[n - 1].ref, puts[n - 1].contentType, puts[n - 1].data)
  }

  predicate AllProper(digest: Digester, puts: seq<Hydrating>) {
    forall i :: 0 <= i < |puts| ==> ProperPut(digest, puts[i])
  }

  lemma {:induction false} HydratedKeepsInv(rows: Rows, digest: Digester, spaces: set<Space>, sp: Space, puts: seq<Hydrating>, n: nat)
    requires GoodDigest(digest) && Separate(spaces) && Inv(rows, digest, spaces) && sp in spaces && n <= |puts| && AllProper(digest, puts)
    ensures Inv(Hydrated(rows, digest, sp, puts, n), digest, spaces)
    decreases n
  {
    hide Key, Separate, GoodDigest, IsTag, Inv, AfterPut;
    if n > 0 {
      HydratedKeepsInv(rows, digest, spaces, sp, puts, n - 1);
      var before, put := Hydrated(rows, digest, sp, puts, n - 1), puts[n - 1];
      assert ProperPut(digest, put);
      PutKeepsInv(before, digest, spaces, sp, put.ref, put.contentType, put.data);
    }
  }

  lemma AnswerFacts(rows: Rows, digest: Digester, spaces: set<Space>, sp: Space, ref: Id)
    requires Inv(rows, digest, spaces) && Separate(spaces) && sp in spaces && Key(sp, ref) in rows
    ensures var m := rows[Key(sp, ref)]; m.digest == digest(m.data) && (IsTag(ref) || m.digest == ref)
  {
    RowsAreFoundByName(rows, digest, spaces, sp, ref);
    InvRow(rows, digest, spaces, Key(sp, ref));
  }

  /** A row the tag list takes up. */
  predicate Listable(rows: Rows, sp: Space, k: Id) {
    k in rows && rows[k].space == sp && rows[k].ref != [] && IsTag(rows[k].ref)
  }

  /** Rows of one repository have different references. */
  lemma ReferencesDiffer(rows: Rows, digest: Digester, spaces: set<Space>, sp: Space, k: Id, l: Id)
    requires Inv(rows, digest, spaces) && Listable(rows, sp, k) && Listable(rows, sp, l) && rows[k].ref == rows[l].ref
    ensures k == l
  {
    InvRow(rows, digest, spaces, k);
    InvRow(rows, digest, spaces, l);
  }

  lemma ListableAreTheTags(rows: Rows, digest: Digester, spaces: set<Space>, sp: Space, t: Id)
    requires GoodDigest(digest) && Inv(rows, digest, spaces) && Separate(spaces) && sp in spaces
    ensures (exists k :: Listable(rows, sp, k) && rows[k].ref == t) <==> t != [] && t in Meaning(rows, sp).tags
  {
    hide Key, Separate, GoodDigest, IsTag, Inv, Meaning;
    MeaningByName(rows, digest, spaces, sp, t);
    RefsAreTheKeys(rows, digest, spaces, sp, t);
  }

  /** What a GET of a row answers. */
  function AnswerOf(m: Manifest): (found: Found) {
    Answer(m.contentType, m.digest, m.data)
  }

  /** Whatever was stored before, a PUT is answered with its own bytes, digest and content type under both its reference and its digest. */
  lemma PutThenGet(rows: Rows, digest: Digester, sp: Space, ref: Id, contentType: Id, data: seq<Byte>, other: Id)
    ensures var after := AfterPut(rows, digest, sp, ref, contentType, data);
      && Key(sp, ref) in after && AnswerOf(after[Key(sp, ref)]) == Answer(contentType, digest(data), data)
      && Key(sp, digest(data)) in after && AnswerOf(after[Key(sp, digest(data))]) == Answer(contentType, digest(data), data)
      && (other != ref && other != digest(data) ==>
            (Key(sp, other) in after <==> Key(sp, other) in rows) && (Key(sp, other) in rows ==> after[Key(sp, other)] == rows[Key(sp, other)]))
  {
    hide Key;
    SameRepositoryKeys(sp, ref, digest(data));
    SameRepositoryKeys(sp, other, ref);
    SameRepositoryKeys(sp, other, digest(data));
  }

  /**
   * The bytes of a tag and of its digest agree, their content types need not: a
   * later PUT of the same bytes under another reference gives its type to the
   * digest and leaves it with the tag only if the tag had that type already.
   */
  lemma TypesAgreeExactlyWhen(rows: Rows, digest: Digester, sp: Space, tag: Id, ref: Id, contentType: Id, data: seq<Byte>)
    requires tag != ref && tag != digest(data) && Key(sp, tag) in rows && rows[Key(sp, tag)].digest == digest(data)
    ensures var after := AfterPut(rows, digest, sp, ref, contentType, data);
      && Key(sp, tag) in after && Key(sp, digest(data)) in after
      && var byTag, byDigest := AnswerOf(after[Key(sp, tag)]), AnswerOf(after[Key(sp, digest(data))]);
         byTag.contentType == byDigest.contentType <==> rows[Key(sp, tag)].contentType == contentType
  {
    hide Key;
    PutThenGet(rows, digest, sp, ref, contentType, data, tag);
  }

  class Registry {
    var manifests: Rows
    const digest: Digester
    ghost const spaces: set<Space>

    ghost predicate Valid()
      reads this
    {
      GoodDigest(digest) && Separate(spaces) && Inv(manifests, digest, spaces)
    }

    constructor (digest: Digester, ghost spaces: set<Space>)
      requires GoodDigest(digest) && Separate(spaces)
      ensures Valid() && manifests == map[] && this.digest == digest && this.spaces == spaces
    {
      this.digest := digest;
      this.spaces := spaces;
      this.manifests := map[];
    }

    /**
     * The manifest GET: a miss is put to the hydration hook, which may store
     * manifests and say whether to look again. As long as the registry is whole
     * what comes back is the content of its digest, and of the digest asked
     * for; a hook that stores content under tags and own digests keeps it so.
     */
    method GetManifest(sp: Space, ref: Id, hook: Option<Hydration>) returns (found: Found)
      requires Valid() && sp in spaces
      modifies this
      ensures var miss := Key(sp, ref) !in old(manifests);
        && manifests == (if miss && hook.Some? then Hydrated(old(manifests), digest, sp, hook.value.puts, |hook.value.puts|) else old(manifests))
        && (found.Answer? <==> !miss || (hook.Some? && hook.value.lookAgain && Key(sp, ref) in manifests))
        && (!miss || hook.None? || AllProper(digest, hook.value.puts) ==> Valid())
      ensures found.Answer? ==>
        && Key(sp, ref) in manifests && found.data == manifests[Key(sp, ref)].data
        && found.digest == manifests[Key(sp, ref)].digest && found.contentType == manifests[Key(sp, ref)].contentType
      ensures found.Answer? && Valid() ==> found.digest == digest(found.data) && (!IsTag(ref) ==> found.digest == ref)
    {
      hide Key, Separate, IsTag, GoodDigest, Inv, Hydrated, AllProper;
      var key := Key(sp, ref);
      if key !in manifests {
        if hook.None? {
          return Unknown;
        }
        Hydrate(sp, hook.value.puts);
        if !hook.value.lookAgain || key !in manifests {
          return Unknown;
        }
      }
      found := Answer(manifests[key].contentType, manifests[key].digest, manifests[key].data);
      if Valid() {
        AnswerFacts(manifests, digest, spaces, sp, ref);
      }
    }

    /** What the hook stores, one PUT after the other. */
    method Hydrate(sp: Space, puts: seq<Hydrating>)
      requires Valid() && sp in spaces
      modifies this
      ensures manifests == Hydrated(old(manifests), digest, sp, puts, |puts|)
      ensures AllProper(digest, puts) ==> Valid()
    {
      hide Key, Separate, IsTag, GoodDigest, Inv, AllProper;
      var i: nat := 0;
      while i < |puts|
        invariant i <= |puts| && manifests == Hydrated(old(manifests), digest, sp, puts, i)
      {
        PutRows(sp, puts[i].ref, puts[i].contentType, puts[i].data);
        i := i + 1;
      }
      if AllProper(digest, puts) {
        HydratedKeepsInv(old(manifests), digest, spaces, sp, puts, |puts|);
      }
    }

    /** The two writes of putManifestRaw. */
    method PutRows(sp: Space, ref: Id, contentType: Id, data: seq<Byte>)
      modifies this
      ensures manifests == AfterPut(old(manifests), digest, sp, ref, contentType, data)
    {
      hide Key;
      var m := Manifest(sp, ref, digest(data), data, contentType);
      manifests := manifests[Key(sp, ref) := m];
      manifests := manifests[Key(sp, m.digest) := m.(ref := m.digest)];
    }

    /** putManifestRaw. A reference that is another content's digest is stored as the code stores it, and loses validity. */
    method PutManifest(sp: Space, ref: Id, contentType: Id, data: seq<Byte>)
      requires Valid() && sp in spaces
      modifies this
      ensures manifests == AfterPut(old(manifests), digest, sp, ref, contentType, data)
      ensures Valid() <==> IsTag(ref) || ref == digest(data)
    {
      hide Key, Separate, GoodDigest, IsTag, Inv, AfterPut;
      PutKeepsInvExactlyWhen(manifests, digest, spaces, sp, ref, contentType, data);
      PutRows(sp, ref, contentType, data);
    }

    /** Deletes each filtered row by the key its reference composes, in any order. */
    method DeleteEach(sp: Space, filtered: set<Id>)
      requires forall k :: k in filtered ==> k in manifests && k == Key(sp, manifests[k].ref)
      modifies this
      ensures manifests == old(manifests) - filtered
    {
      hide Key;
      var before := manifests;
      var left := filtered;
      while left != {}
        invariant left <= filtered && manifests == before - (filtered - left)
        decreases |left|
      {
        var k :| k in left;
        left := left - {k};
        manifests := manifests - {Key(sp, before[k].ref)};
      }
    }

    /** The manifest DELETE and DeleteManifest: every alias of the content found at the reference. */
    method DeleteManifest(sp: Space, ref: Id) returns (found: bool)
      requires Valid() && sp in spaces
      modifies this
      ensures Valid() && manifests == AfterDelete(old(manifests), sp, ref) && found == (Key(sp, ref) in old(manifests))
    {
      hide Key, Separate, GoodDigest, IsTag, Inv;
      DeleteKeepsInv(manifests, digest, spaces, sp, ref);
      found := Key(sp, ref) in manifests;
      if found {
        var d := manifests[Key(sp, ref)].digest;
        var filtered := AliasesOf(manifests, sp, d);
        AliasesAreDoomed(manifests, digest, spaces, sp, ref);
        DeleteEach(sp, filtered);
        manifests := manifests - {Key(sp, ref)};
        assert manifests == old(manifests) - filtered;
      }
    }

    method DeleteTagOnly(sp: Space, tag: Id) returns (found: bool)
      requires Valid() && sp in spaces
      modifies this
      ensures manifests == AfterDeleteTag(old(manifests), sp, tag) && found == (Key(sp, tag) in old(manifests))
      ensures Valid() <==> IsTag(tag) || !found || Untagged(old(manifests), sp, tag)
    {
      hide Key, Separate, GoodDigest, IsTag, Inv;
      DeleteTagKeepsInvExactlyWhen(manifests, digest, spaces, sp, tag);
      found := Key(sp, tag) in manifests;
      if !found {
        assert manifests - {Key(sp, tag)} == manifests;
        return;
      }
      manifests := manifests - {Key(sp, tag)};
    }

    /** handleTagsList: a reference for each row of a named tag, in any order, then sorted; no tag comes twice. */
    method TagsList(sp: Space) returns (tags: seq<Id>)
      requires Valid() && sp in spaces
      ensures Ascending(tags)
      ensures forall t :: t in tags <==> t != [] && t in Meaning(manifests, sp).tags
    {
      hide Key, Separate, GoodDigest, IsTag, Inv, Meaning;
      var listed: seq<Id> := [];
      var left := manifests.Keys;
      while left != {}
        invariant left <= manifests.Keys
        invariant forall t :: t in listed <==> exists k :: Listable(manifests, sp, k) && k !in left && manifests[k].ref == t
        invariant forall i, j :: 0 <= i < j < |listed| ==> listed[i] != listed[j]
        decreases |left|
      {
        var k :| k in left;
        left := left - {k};
        if manifests[k].space == sp && manifests[k].ref != [] && IsTag(manifests[k].ref) {
          assert Listable(manifests, sp, k);
          assert manifests[k].ref !in listed by {
            if manifests[k].ref in listed {
              var l :| Listable(manifests, sp, l) && l !in left && l != k && manifests[l].ref == manifests[k].ref;
              ReferencesDiffer(manifests, digest, spaces, sp, k, l);
            }
          }
          listed := listed + [manifests[k].ref];
        }
      }
      tags := Sort(listed);
      SortedIsAscending(Members(listed));
      forall t
        ensures t in tags <==> t != [] && t in Meaning(manifests, sp).tags
      {
        ListableAreTheTags(manifests, digest, spaces, sp, t);
      }
    }
  }
}
