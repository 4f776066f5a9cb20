// The names of an ACME certificate: which certificate requests
// acmCSRMatchesOrder (simulator-aws/acm_acme.go) accepts for an order, and what
// the leaf then carries.

module CertificateNames {
  import opened Common
  import opened ByteOrder

  /** Case folding of one character, as strings.EqualFold compares them. */
  type Fold = char -> char

  /** NUL, which joins the names, folds with nothing else. */
  ghost predicate GoodFold(fold: Fold) {
    forall c: char :: fold(c) == '\0' <==> c == '\0'
  }

  /** The names in a certificate request or a leaf; `others` are the addresses and URIs beside the DNS names. */
  datatype Names = Names(dns: seq<string>, commonName: string, others: seq<string>)

  predicate SameName(a: string, b: string, fold: Fold) {
    EachChar(a, fold) == EachChar(b, fold)
  }

  // Sorting, as sort.Strings does.

  /** The codes of a string's characters, which order it as its bytes would. */
  function Codes(s: string): (codes: seq<int>)
    ensures |codes| == |s|
  {
    seq(|s|, i requires 0 <= i < |s| => s[i] as int)
  }

  predicate Precedes(a: string, b: string) {
    Less(Codes(a), Codes(b))
  }

  lemma PrecedesIsTotal(a: string, b: string)
    ensures !Precedes(a, b) && !Precedes(b, a) ==> a == b
    ensures !(Precedes(a, b) && Precedes(b, a))
  {
    hide Less;
    LessIsTotal(Codes(a), Codes(b));
    LessIsStrict(Codes(a), Codes(b));
    if Codes(a) == Codes(b) {
      forall i | 0 <= i < |a|
        ensures i < |b| && a[i] == b[i]
      {
        assert Codes(a)[i] == Codes(b)[i];
      }
      assert |a| == |Codes(a)| == |Codes(b)| == |b|;
    }
  }

  lemma PrecedesIsTransitive(a: string, b: string, c: string)
    requires Precedes(a, b) && Precedes(b, c)
    ensures Precedes(a, c)
  {
    LessIsTransitive(Codes(a), Codes(b), Codes(c));
  }

  function Insert(x: string, sorted: seq<string>): (r: seq<string>)
    ensures multiset(r) == multiset(sorted) + multiset{x}
  {
    if sorted == [] || !Precedes(sorted[0], x) then
      assert [x] + sorted == [x] + sorted[..];
      [x] + sorted
    else
      assert sorted == [sorted[0]] + sorted[1..];
      [sorted[0]] + Insert(x, sorted[1..])
  }

  function Sort(names: seq<string>): (r: seq<string>)
    ensures multiset(r) == multiset(names) && |r| == |names|
  {
    if names == [] then []
    else
      assert names == [names[0]] + names[1..];
      var r := Insert(names[0], Sort(names[1..]));
      assert |multiset(r)| == |multiset(names)|;
      r
  }

  /** Inserting two names gives the same list either way round. */
  lemma {:induction false} InsertsCommute(x: string, y: string, sorted: seq<string>)
    ensures Insert(x, Insert(y, sorted)) == Insert(y, Insert(x, sorted))
  {
    hide Precedes;
    PrecedesIsTotal(x, y);
    if sorted != [] {
      var h := sorted[0];
      PrecedesIsTotal(h, x);
      PrecedesIsTotal(h, y);
      if Precedes(h, x) && Precedes(h, y) {
        InsertsCommute(x, y, sorted[1..]);
      } else if Precedes(h, x) && Precedes(x, y) {
        PrecedesIsTransitive(h, x, y);
      } else if Precedes(h, y) && Precedes(y, x) {
        PrecedesIsTransitive(h, y, x);
      }
    }
  }

  function Without(names: seq<string>, k: nat): (r: seq<string>)
    requires k < |names|
    ensures |r| == |names| - 1 && multiset(r) == multiset(names) - multiset{names[k]}
  {
    assert names == names[..k] + [names[k]] + names[k + 1..];
    names[..k] + names[k + 1..]
  }

  lemma SortInsertsTheFirst(names: seq<string>)
    requires names != []
    ensures Sort(names) == Insert(names[0], Sort(names[1..]))
  {
  }

  lemma WithoutLater(names: seq<string>, k: nat)
    requires 0 < k < |names|
    ensures var rest := Without(names, k); rest != [] && rest[0] == names[0] && rest[1..] == Without(names[1..], k - 1)
    ensures names[k] == names[1..][k - 1]
  {
  }

  lemma {:induction false} AnyNameFirst(names: seq<string>, k: nat)
    requires k < |names|
    ensures Sort(names) == Insert(names[k], Sort(Without(names, k)))
    decreases k
  {
    SortInsertsTheFirst(names);
    if k == 0 {
      assert Without(names, 0) == names[1..];
    } else {
      hide Sort, Insert, Without;
      WithoutLater(names, k);
      var rest := Without(names, k);
      AnyNameFirst(names[1..], k - 1);
      SortInsertsTheFirst(rest);
      InsertsCommute(names[0], names[k], Sort(rest[1..]));
    }
  }

  /** The listing order of names does not matter once they are sorted. */
  lemma {:induction false} SortForgetsTheOrder(a: seq<string>, b: seq<string>)
    requires multiset(a) == multiset(b)
    ensures Sort(a) == Sort(b)
    decreases |a|
  {
    assert |a| == |multiset(a)| && |b| == |multiset(b)|;
    if a != [] {
      assert a[0] in multiset(b);
      var k :| 0 <= k < |b| && b[k] == a[0];
      assert a == [a[0]] + a[1..];
      SortForgetsTheOrder(a[1..], Without(b, k));
      AnyNameFirst(b, k);
    }
  }

  // The joined form the names are compared in.

  function Join(names: seq<string>): (s: string) {
    if names == [] then "" else if |names| == 1 then names[0] else names[0] + ['\0'] + Join(names[1..])
  }

  /** The names the request is compared by: its DNS names, or its common name when there are none. */
  function Asked(csr: Names): (names: seq<string>) {
    if csr.dns == [] && csr.commonName != "" then [csr.commonName] else csr.dns
  }

  /** acmCSRMatchesOrder. */
  predicate MatchesOrder(csr: Names, identifiers: seq<string>, fold: Fold) {
    && |Asked(csr)| == |identifiers|
    && SameName(Join(Sort(Asked(csr))), Join(Sort(identifiers)), fold)
  }

  predicate NulFree(names: seq<string>) {
    forall k :: 0 <= k < |names| ==> '\0' !in names[k]
  }

  /** The two lists hold, place by place, the same names. */
  predicate SameNames(a: seq<string>, b: seq<string>, fold: Fold) {
    |a| == |b| && forall k :: 0 <= k < |a| ==> SameName(a[k], b[k], fold)
  }

  predicate SameLengths(a: seq<string>, b: seq<string>) {
    |a| == |b| && forall k :: 0 <= k < |a| ==> |a[k]| == |b[k]|
  }

  lemma FoldedParts(a: string, b: string, n: nat, fold: Fold)
    requires SameName(a, b, fold) && n <= |a|
    ensures |a| == |b| && SameName(a[..n], b[..n], fold) && SameName(a[n..], b[n..], fold)
  {
    var f, g := EachChar(a, fold), EachChar(b, fold);
    assert |a| == |f| == |g| == |b|;
    assert EachChar(a[..n], fold) == f[..n] && EachChar(b[..n], fold) == g[..n];
    assert EachChar(a[n..], fold) == f[n..] && EachChar(b[n..], fold) == g[n..];
  }

  /** Equal joined forms split into the same names exactly when the names have the same lengths. */
  lemma {:induction false} SplitsAlikeExactlyWhen(a: seq<string>, b: seq<string>, fold: Fold)
    requires |a| == |b| && SameName(Join(a), Join(b), fold)
    ensures SameNames(a, b, fold) <==> SameLengths(a, b)
    decreases |a|
  {
    if SameNames(a, b, fold) {
      forall k | 0 <= k < |a|
        ensures |a[k]| == |b[k]|
      {
        assert |EachChar(a[k], fold)| == |EachChar(b[k], fold)|;
      }
    }
    if SameLengths(a, b) && |a| > 1 {
      var n := |a[0]|;
      FoldedParts(Join(a), Join(b), n, fold);
      FoldedParts(Join(a), Join(b), n + 1, fold);
      assert Join(a)[..n] == a[0] && Join(b)[..n] == b[0];
      assert Join(a)[n + 1..] == Join(a[1..]) && Join(b)[n + 1..] == Join(b[1..]);
      SplitsAlikeExactlyWhen(a[1..], b[1..], fold);
    }
  }

  function Nuls(s: string): (n: nat) {
    if s == "" then 0 else (if s[0] == '\0' then 1 else 0) + Nuls(s[1..])
  }

  lemma {:induction false} NulsAdd(a: string, b: string)
    ensures Nuls(a + b) == Nuls(a) + Nuls(b)
  {
    if a == "" {
      assert a + b == b;
    } else {
      assert (a + b)[1..] == a[1..] + b;
      NulsAdd(a[1..], b);
    }
  }

  lemma {:induction false} NulsMeanNul(s: string)
    ensures Nuls(s) == 0 <==> '\0' !in s
  {
    if s != "" {
      NulsMeanNul(s[1..]);
      assert s == [s[0]] + s[1..];
    }
  }

  lemma {:induction false} NulsFold(a: string, b: string, fold: Fold)
    requires GoodFold(fold) && SameName(a, b, fold)
    ensures Nuls(a) == Nuls(b)
    decreases |a|
  {
    assert |a| == |EachChar(a, fold)| == |EachChar(b, fold)| == |b|;
    if a != "" {
      assert EachChar(a, fold)[0] == EachChar(b, fold)[0];
      FoldedParts(a, b, 1, fold);
      NulsFold(a[1..], b[1..], fold);
    }
  }

  /** A joined list of names without NUL has one NUL less than names, and any other list of as many names has more. */
  lemma {:induction false} NulsOfJoin(names: seq<string>)
    requires names != []
    ensures Nuls(Join(names)) >= |names| - 1
    ensures Nuls(Join(names)) == |names| - 1 <==> NulFree(names)
  {
    NulsMeanNul(names[0]);
    if |names| > 1 {
      NulsOfJoin(names[1..]);
      NulsAdd(names[0] + ['\0'], Join(names[1..]));
      NulsAdd(names[0], ['\0']);
      assert NulFree(names) <==> '\0' !in names[0] && NulFree(names[1..]) by {
        assert names == [names[0]] + names[1..];
      }
    }
  }

  lemma {:induction false} FirstNulSplits(a: seq<string>, b: seq<string>, fold: Fold)
    requires GoodFold(fold) && |a| == |b| && NulFree(a) && NulFree(b) && SameName(Join(a), Join(b), fold)
    ensures SameLengths(a, b)
    decreases |a|
  {
    var s, t := Join(a), Join(b);
    assert |s| == |EachChar(s, fold)| == |EachChar(t, fold)| == |t|;
    if |a| > 1 {
      var n, m := |a[0]|, |b[0]|;
      assert forall i :: 0 <= i < |s| ==> (s[i] == '\0' <==> t[i] == '\0') by {
        forall i | 0 <= i < |s|
          ensures s[i] == '\0' <==> t[i] == '\0'
        {
          assert EachChar(s, fold)[i] == EachChar(t, fold)[i];
        }
      }
      assert s[n] == '\0' && t[m] == '\0';
      assert forall i :: 0 <= i < n ==> s[i] == a[0][i];
      assert forall i :: 0 <= i < m ==> t[i] == b[0][i];
      assert n == m;
      FoldedParts(s, t, n + 1, fold);
      assert s[n + 1..] == Join(a[1..]) && t[n + 1..] == Join(b[1..]);
      FirstNulSplits(a[1..], b[1..], fold);
    }
  }

  /** The joined forms break into names at the same places. */
  predicate SplitsAlike(csr: Names, identifiers: seq<string>) {
    SameLengths(Sort(Asked(csr)), Sort(identifiers))
  }

  /** They do where the identifiers hold no NUL. */
  lemma NulFreeSplitsAlike(csr: Names, identifiers: seq<string>, fold: Fold)
    requires GoodFold(fold) && MatchesOrder(csr, identifiers, fold) && NulFree(identifiers)
    ensures SplitsAlike(csr, identifiers)
  {
    var got, want := Sort(Asked(csr)), Sort(identifiers);
    if got != [] {
      PermutedNulFree(identifiers, want);
      NulsFold(Join(got), Join(want), fold);
      NulsOfJoin(got);
      NulsOfJoin(want);
      FirstNulSplits(got, want, fold);
    }
  }

  /** An accepted request asks for exactly the order's names, up to case and order, exactly when the two split alike. */
  lemma MatchedNamesAreTheOrders(csr: Names, identifiers: seq<string>, fold: Fold)
    requires MatchesOrder(csr, identifiers, fold)
    ensures SameNames(Sort(Asked(csr)), Sort(identifiers), fold) <==> SplitsAlike(csr, identifiers)
  {
    SplitsAlikeExactlyWhen(Sort(Asked(csr)), Sort(identifiers), fold);
  }

  lemma PermutedNulFree(a: seq<string>, b: seq<string>)
    requires multiset(a) == multiset(b) && NulFree(a)
    ensures NulFree(b)
  {
    forall k | 0 <= k < |b|
      ensures '\0' !in b[k]
    {
      assert b[k] in multiset(a);
    }
  }

  // What the leaf carries.

  /** The name is, up to case, one of the order's identifiers. */
  predicate InOrder(name: string, identifiers: seq<string>, fold: Fold) {
    exists k :: 0 <= k < |identifiers| && SameName(name, identifiers[k], fold)
  }

  /** Every name of the leaf, whatever its kind, is one of the order's DNS identifiers. */
  predicate AllInOrder(leaf: Names, identifiers: seq<string>, fold: Fold) {
    && leaf.others == []
    && (leaf.commonName != "" ==> InOrder(leaf.commonName, identifiers, fold))
    && forall k :: 0 <= k < |leaf.dns| ==> InOrder(leaf.dns[k], identifiers, fold)
  }

  lemma SortedNamesInOrder(names: seq<string>, identifiers: seq<string>, fold: Fold, name: string)
    requires SameNames(Sort(names), Sort(identifiers), fold) && InOrder(name, names, fold)
    ensures InOrder(name, identifiers, fold)
  {
    var k :| 0 <= k < |names| && SameName(name, names[k], fold);
    assert names[k] in multiset(Sort(names));
    var j :| 0 <= j < |Sort(names)| && Sort(names)[j] == names[k];
    assert SameName(Sort(names)[j], Sort(identifiers)[j], fold);
    assert Sort(identifiers)[j] in multiset(identifiers);
    var i :| 0 <= i < |identifiers| && identifiers[i] == Sort(identifiers)[j];
    assert SameName(name, identifiers[i], fold);
  }

  lemma SameNamesTurn(a: seq<string>, b: seq<string>, fold: Fold)
    requires SameNames(a, b, fold)
    ensures SameNames(b, a, fold)
  {
  }

  /** The DNS names of an accepted request are the order's. */
  lemma DnsNamesAreInOrder(csr: Names, identifiers: seq<string>, fold: Fold, k: nat)
    requires MatchesOrder(csr, identifiers, fold) && SplitsAlike(csr, identifiers) && k < |csr.dns|
    ensures InOrder(csr.dns[k], identifiers, fold)
  {
    MatchedNamesAreTheOrders(csr, identifiers, fold);
    assert SameName(csr.dns[k], Asked(csr)[k], fold);
    SortedNamesInOrder(Asked(csr), identifiers, fold, csr.dns[k]);
  }

  /**
   * A leaf with the names of an accepted request that splits alike carries only
   * names of the order exactly when it has no names beside DNS names and its common name is
   * empty, is one of them, or stands in for them.
   */
  lemma AllInOrderExactlyWhen(csr: Names, identifiers: seq<string>, fold: Fold)
    requires MatchesOrder(csr, identifiers, fold) && SplitsAlike(csr, identifiers)
    ensures AllInOrder(csr, identifiers, fold) <==>
      csr.others == [] && (csr.commonName == "" || csr.dns == [] || InOrder(csr.commonName, csr.dns, fold))
  {
    MatchedNamesAreTheOrders(csr, identifiers, fold);
    SameNamesTurn(Sort(Asked(csr)), Sort(identifiers), fold);
    forall k | 0 <= k < |csr.dns|
      ensures InOrder(csr.dns[k], identifiers, fold)
    {
      DnsNamesAreInOrder(csr, identifiers, fold, k);
    }
    if csr.commonName != "" && InOrder(csr.commonName, Asked(csr), fold) {
      SortedNamesInOrder(Asked(csr), identifiers, fold, csr.commonName);
    }
    if csr.commonName != "" && InOrder(csr.commonName, identifiers, fold) {
      SortedNamesInOrder(identifiers, Asked(csr), fold, csr.commonName);
    }
    if csr.commonName != "" && csr.dns == [] {
      assert SameName(csr.commonName, Asked(csr)[0], fold);
    }
  }

  /** The order's own names are accepted in any order, with any common name and any other names beside them. */
  lemma AnyCommonNameIsAccepted(dns: seq<string>, identifiers: seq<string>, commonName: string, others: seq<string>, fold: Fold)
    requires identifiers != [] && multiset(dns) == multiset(identifiers)
    ensures MatchesOrder(Names(dns, commonName, others), identifiers, fold)
  {
    assert |dns| == |multiset(dns)| && |identifiers| == |multiset(identifiers)|;
    SortForgetsTheOrder(dns, identifiers);
  }

  lemma AForeignCommonNameIsAccepted(fold: Fold)
    ensures var csr := Names(["a.com"], "evil.com", []);
      MatchesOrder(csr, ["a.com"], fold) && !AllInOrder(csr, ["a.com"], fold)
  {
    AnyCommonNameIsAccepted(["a.com"], ["a.com"], "evil.com", [], fold);
    assert |EachChar("evil.com", fold)| != |EachChar("a.com", fold)|;
  }

  lemma OneIsNotTheOther(fold: Fold)
    requires fold('a') != fold('c')
    ensures !InOrder("a", ["a\0b", "c"], fold)
  {
    assert |EachChar("a", fold)| == 1 && |EachChar("a\0b", fold)| == 3;
    assert EachChar("a", fold)[0] == fold('a') && EachChar("c", fold)[0] == fold('c');
  }

  lemma JoinOfTwo(a: string, b: string)
    ensures Join([a, b]) == a + ['\0'] + b
  {
    assert [a, b][1..] == [b];
  }

  /** With NUL in the identifiers they need not, and the leaf then names what the order does not. */
  lemma NulSplitsDifferently(fold: Fold)
    requires fold('a') != fold('c')
    ensures var csr, identifiers := Names(["a", "b\0c"], "", []), ["a\0b", "c"];
      MatchesOrder(csr, identifiers, fold) && !AllInOrder(csr, identifiers, fold)
  {
    var csr, identifiers := Names(["a", "b\0c"], "", []), ["a\0b", "c"];
    OneIsNotTheOther(fold);
    JoinOfTwo("a", "b\0c");
    JoinOfTwo("a\0b", "c");
    FirstCodeDecides("a", "b\0c");
    FirstCodeDecides("a\0b", "c");
    TwoInOrder(csr.dns);
    TwoInOrder(identifiers);
    hide Sort, Join, InOrder, EachChar;
    assert "a" + ['\0'] + "b\0c" == "a\0b" + ['\0'] + "c";
    assert csr.dns[0] == "a";
  }

  lemma FirstCodeDecides(a: string, b: string)
    requires a != "" && b != "" && a[0] < b[0]
    ensures Precedes(a, b)
  {
    assert Codes(a)[0] < Codes(b)[0];
  }

  lemma TwoInOrder(names: seq<string>)
    requires |names| == 2 && Precedes(names[0], names[1])
    ensures Sort(names) == names
  {
    PrecedesIsTotal(names[0], names[1]);
    assert Sort(names[1..]) == [names[1]] by {
      assert names[1..][1..] == [];
    }
    assert names == [names[0]] + [names[1]];
  }

  // Which requests are refused.

  lemma {:induction false} SameNamesJoinAlike(a: seq<string>, b: seq<string>, fold: Fold)
    requires SameNames(a, b, fold)
    ensures SameName(Join(a), Join(b), fold)
    decreases |a|
  {
    if |a| > 1 {
      SameNamesJoinAlike(a[1..], b[1..], fold);
      assert SameName(a[0], b[0], fold);
      FoldOfParts(a[0], ['\0'], fold);
      FoldOfParts(b[0], ['\0'], fold);
      FoldOfParts(a[0] + ['\0'], Join(a[1..]), fold);
      FoldOfParts(b[0] + ['\0'], Join(b[1..]), fold);
    } else if |a| == 1 {
      assert SameName(a[0], b[0], fold);
    }
  }

  lemma FoldOfParts(a: string, b: string, fold: Fold)
    ensures EachChar(a + b, fold) == EachChar(a, fold) + EachChar(b, fold)
  {
  }

  /**
   * Of all requests, exactly those are accepted whose names and the order's,
   * each sorted as they are written, agree place by place up to case.
   */
  lemma AcceptedExactlyWhen(csr: Names, identifiers: seq<string>, fold: Fold)
    requires GoodFold(fold) && NulFree(identifiers)
    ensures MatchesOrder(csr, identifiers, fold) <==> SameNames(Sort(Asked(csr)), Sort(identifiers), fold)
  {
    hide GoodFold, Sort, Asked;
    if MatchesOrder(csr, identifiers, fold) {
      NulFreeSplitsAlike(csr, identifiers, fold);
      MatchedNamesAreTheOrders(csr, identifiers, fold);
    }
    if SameNames(Sort(Asked(csr)), Sort(identifiers), fold) {
      SameNamesJoinAlike(Sort(Asked(csr)), Sort(identifiers), fold);
    }
  }

  /** The two lists hold the same names up to case and order. */
  predicate SameUpToOrder(a: seq<string>, b: seq<string>, fold: Fold) {
    && |a| == |b|
    && multiset(seq(|a|, i requires 0 <= i < |a| => EachChar(a[i], fold))) == multiset(seq(|b|, i requires 0 <= i < |b| => EachChar(b[i], fold)))
  }

  lemma FirstCharacterTells(a: string, b: string, fold: Fold)
    requires a != "" && b != "" && fold(a[0]) != fold(b[0])
    ensures !SameName(a, b, fold)
  {
    assert EachChar(a, fold)[0] != EachChar(b, fold)[0];
  }

  /** A request for the order's own names can be refused: written with a capital, a name can sort elsewhere. */
  lemma CaseCanSpoilTheOrder(fold: Fold)
    requires GoodFold(fold) && fold('B') == fold('b') && fold('a') != fold('b')
    ensures var csr, identifiers := Names(["B.com", "a.com"], "", []), ["a.com", "b.com"];
      SameUpToOrder(csr.dns, identifiers, fold) && !MatchesOrder(csr, identifiers, fold)
  {
    var csr, identifiers := Names(["B.com", "a.com"], "", []), ["a.com", "b.com"];
    FirstCodeDecides("B.com", "a.com");
    FirstCodeDecides("a.com", "b.com");
    TwoInOrder(csr.dns);
    TwoInOrder(identifiers);
    FirstCharacterTells("B.com", "a.com", fold);
    AcceptedExactlyWhen(csr, identifiers, fold);
    CapitalsFold(fold);
    hide GoodFold, Sort, MatchesOrder, SameName;
    assert csr.dns[0] == "B.com" && identifiers[0] == "a.com";
  }

  lemma CapitalsFold(fold: Fold)
    requires fold('B') == fold('b')
    ensures SameUpToOrder(["B.com", "a.com"], ["a.com", "b.com"], fold)
  {
    var b, a := EachChar("b.com", fold), EachChar("a.com", fold);
    assert EachChar("B.com", fold) == b;
    var got, want := ["B.com", "a.com"], ["a.com", "b.com"];
    assert seq(|got|, i requires 0 <= i < |got| => EachChar(got[i], fold)) == [b, a];
    assert seq(|want|, i requires 0 <= i < |want| => EachChar(want[i], fold)) == [a, b];
  }

  lemma SplitsThatDiffer()
    ensures Sort(["A\0a", "a"]) == ["A\0a", "a"] && Sort(["a", "a\0a"]) == ["a", "a\0a"]
    ensures !SameLengths(["A\0a", "a"], ["a", "a\0a"])
  {
    hide Sort, Precedes;
    FirstCodeDecides("A\0a", "a");
    PrefixPrecedes("a", "a\0a");
    TwoInOrder(["A\0a", "a"]);
    TwoInOrder(["a", "a\0a"]);
    var got, want := ["A\0a", "a"], ["a", "a\0a"];
    assert |got[0]| != |want[0]|;
  }

  lemma BothInOrder(csr: Names, a: string, b: string, fold: Fold)
    requires |csr.dns| == 2 && csr.commonName == "" && csr.others == [] && csr.dns[1] == a && SameName(csr.dns[0], b, fold)
    ensures AllInOrder(csr, [a, b], fold)
  {
    hide EachChar;
    var identifiers := [a, b];
    assert identifiers[0] == a && identifiers[1] == b;
    assert InOrder(csr.dns[0], identifiers, fold) && InOrder(csr.dns[1], identifiers, fold);
  }

  /** A request that splits differently can still carry only names of the order. */
  lemma DifferentSplitsCanBeRight(fold: Fold)
    requires fold('A') == fold('a')
    ensures var csr, identifiers := Names(["A\0a", "a"], "", []), ["a", "a\0a"];
      MatchesOrder(csr, identifiers, fold) && !SplitsAlike(csr, identifiers) && AllInOrder(csr, identifiers, fold)
  {
    hide Sort, Join, SameName, SameLengths, AllInOrder;
    SplitsThatDiffer();
    JoinOfTwo("A\0a", "a");
    JoinOfTwo("a", "a\0a");
    CapitalSplit(fold);
    var csr := Names(["A\0a", "a"], "", []);
    assert Asked(csr) == ["A\0a", "a"];
    BothInOrder(csr, "a", "a\0a", fold);
  }

  lemma CapitalSplit(fold: Fold)
    requires fold('A') == fold('a')
    ensures SameName("A\0a", "a\0a", fold) && SameName("A\0a" + ['\0'] + "a", "a" + ['\0'] + "a\0a", fold)
  {
    assert EachChar("A\0a", fold) == EachChar("a\0a", fold);
    assert EachChar("A\0a\0a", fold) == EachChar("a\0a\0a", fold);
    assert "A\0a" + ['\0'] + "a" == "A\0a\0a" && "a" + ['\0'] + "a\0a" == "a\0a\0a";
  }

  lemma PrefixPrecedes(a: string, b: string)
    requires |a| == 1 && |b| > 1 && b[0] == a[0]
    ensures Precedes(a, b)
  {
    assert Codes(a)[1..] == [] && |Codes(b)[1..]| > 0;
    assert Codes(a)[0] == Codes(b)[0];
  }
}
