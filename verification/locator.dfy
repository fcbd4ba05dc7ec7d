/**
 Finding the artifact to deploy: read the provider's artifact listing page by
 page until the reported total is reached, keep the records with the wanted
 name (and branch), sort them newest first and take the head.
 */
module Locator {
  import opened Records
  import Timestamps

  /** What the provider serves for one repository: the `total_count` of the
      first response, and the `artifacts` of pages 1, 2, ... in order. A page
      past the end of `pages` is served empty. */
  datatype Listing = Listing(totalCount: int, pages: seq<seq<Artifact>>)

  /** The artifacts of page `i + 1`. */
  function PageAt(pages: seq<seq<Artifact>>, i: nat): seq<Artifact> {
    if i < |pages| then pages[i] else []
  }

  /** Pages 1 through `n`, concatenated in page order. */
  function Prefix(pages: seq<seq<Artifact>>, n: nat): seq<Artifact> {
    if n == 0 then [] else Prefix(pages, n - 1) + PageAt(pages, n - 1)
  }

  /** After `n` pages the collected count has reached `total_count`. */
  predicate Reached(listing: Listing, n: nat) {
    |Prefix(listing.pages, n)| >= listing.totalCount
  }

  /** The outcome of the listing loop: the collected artifacts after the
      given number of requests, or a loop that never ends. */
  datatype Paging = Collected(artifacts: seq<Artifact>, pagesRequested: nat) | Endless(pagesRequested: nat)

  /** The GET requests for pages 1 through `n`. */
  function Requests(n: nat): seq<Action> {
    seq(n, i requires 0 <= i < n => ListArtifacts(i + 1))
  }

  /** Requesting pages past the end of the listing adds nothing. */
  lemma {:induction false} PrefixPastEnd(pages: seq<seq<Artifact>>, k: nat)
    requires |pages| <= k
    ensures forall m: nat :: k <= m ==> Prefix(pages, m) == Prefix(pages, k)
  {
    forall m: nat | k <= m
      ensures Prefix(pages, m) == Prefix(pages, k)
    {
      PrefixPastEndAt(pages, k, m);
    }
  }

  lemma {:induction false} PrefixPastEndAt(pages: seq<seq<Artifact>>, k: nat, m: nat)
    requires |pages| <= k <= m
    ensures Prefix(pages, m) == Prefix(pages, k)
    decreases m
  {
    if m > k {
      PrefixPastEndAt(pages, k, m - 1);
      assert PageAt(pages, m - 1) == [];
    }
  }

  /** The loop of the script once `k` pages have been read into `collected`:
      stop when the count is reached, otherwise request page `k + 1`. Past the
      last page of the listing every further page is empty, so the loop can
      no longer make progress and runs forever. */
  function FetchFrom(listing: Listing, k: nat, collected: seq<Artifact>): (r: Paging)
    requires 1 <= k && collected == Prefix(listing.pages, k)
    requires forall m :: 1 <= m < k ==> !Reached(listing, m)
    ensures r.Collected? ==>
      && k <= r.pagesRequested
      && r.artifacts == Prefix(listing.pages, r.pagesRequested)
      && Reached(listing, r.pagesRequested)
      && forall m :: 1 <= m < r.pagesRequested ==> !Reached(listing, m)
    ensures r.Endless? ==>
      && r.pagesRequested == (if |listing.pages| <= k then k else |listing.pages|)
      && forall m :: 1 <= m ==> !Reached(listing, m)
    decreases |listing.pages| - k
  {
    if |collected| >= listing.totalCount then Collected(collected, k)
    else if k >= |listing.pages| then
      PrefixPastEnd(listing.pages, k);
      Endless(k)
    else FetchFrom(listing, k + 1, collected + listing.pages[k])
  }

  /** The listing loop from the first request on. */
  function Paginate(listing: Listing): (r: Paging)
    ensures r.Collected? ==>
      && 1 <= r.pagesRequested
      && r.artifacts == Prefix(listing.pages, r.pagesRequested)
      && Reached(listing, r.pagesRequested)
      && forall m :: 1 <= m < r.pagesRequested ==> !Reached(listing, m)
    ensures r.Endless? <==> forall m :: 1 <= m ==> !Reached(listing, m)
    ensures r.Endless? ==> r.pagesRequested == (if |listing.pages| == 0 then 1 else |listing.pages|)
  {
    assert Prefix(listing.pages, 1) == PageAt(listing.pages, 0);
    FetchFrom(listing, 1, PageAt(listing.pages, 0))
  }

  /** The filter of the script: the wanted name, and the wanted branch
      unless no branch is configured. */
  predicate Wanted(a: Artifact, name: string, branch: string) {
    a.name == name && (branch == "" || a.headBranch == branch)
  }

  /** `xs` is `ys` with some elements left out, order kept. */
  predicate IsSubsequence<T(==)>(xs: seq<T>, ys: seq<T>)
    decreases |ys|
  {
    if |ys| == 0 then |xs| == 0
    else
      || (|xs| > 0 && xs[0] == ys[0] && IsSubsequence(xs[1..], ys[1..]))
      || IsSubsequence(xs, ys[1..])
  }

  /** The list comprehension of the script: the wanted artifacts, every one
      of them as often as it is listed, in listing order. */
  function FilterWanted(arts: seq<Artifact>, name: string, branch: string): (r: seq<Artifact>)
    ensures IsSubsequence(r, arts)
    ensures forall a :: a in r ==> Wanted(a, name, branch)
    ensures forall a :: Wanted(a, name, branch) ==> multiset(r)[a] == multiset(arts)[a]
  {
    if |arts| == 0 then []
    else
      assert arts == [arts[0]] + arts[1..];
      var rest := FilterWanted(arts[1..], name, branch);
      if Wanted(arts[0], name, branch) then
        assert ([arts[0]] + rest)[1..] == rest;
        [arts[0]] + rest
      else rest
  }

  /** The filter keeps nothing exactly when no listed record is wanted. */
  lemma FilterWantedEmptyIff(arts: seq<Artifact>, name: string, branch: string)
    ensures |FilterWanted(arts, name, branch)| == 0 <==> forall a :: a in arts ==> !Wanted(a, name, branch)
  {
    var r := FilterWanted(arts, name, branch);
    if |r| > 0 {
      assert multiset(r)[r[0]] > 0;
      assert r[0] in multiset(arts);
    } else {
      forall a | a in arts
        ensures !Wanted(a, name, branch)
      {
        assert multiset(arts)[a] > 0;
      }
    }
  }

  /** Newest first: no later element has a later `updated_at`. */
  ghost predicate SortedNewestFirst(s: seq<Artifact>) {
    forall i, j :: 0 <= i < j < |s| ==> Timestamps.AtMost(s[j].updatedAt, s[i].updatedAt)
  }

  /** Insert `x`, which was listed before everything in `t`, into `t`: it goes
      after the strictly newer records and before the rest, so that records
      with equal timestamps keep their listing order. */
  function InsertNewestFirst(x: Artifact, t: seq<Artifact>): (r: seq<Artifact>)
    ensures multiset(r) == multiset(t) + multiset{x}
  {
    if |t| == 0 || !Timestamps.Less(x.updatedAt, t[0].updatedAt) then [x] + t
    else
      assert t == [t[0]] + t[1..];
      [t[0]] + InsertNewestFirst(x, t[1..])
  }

  /** `wanted_artifacts.sort(key=updated_at, reverse=True)`: a stable sort,
      newest first, that keeps every record. */
  function SortNewestFirst(s: seq<Artifact>): (r: seq<Artifact>)
    ensures multiset(r) == multiset(s)
    ensures SortedNewestFirst(r)
  {
    if |s| == 0 then []
    else
      assert s == [s[0]] + s[1..];
      var rest := SortNewestFirst(s[1..]);
      InsertKeepsSorted(s[0], rest);
      InsertNewestFirst(s[0], rest)
  }

  lemma {:induction false} InsertKeepsSorted(x: Artifact, t: seq<Artifact>)
    requires SortedNewestFirst(t)
    ensures SortedNewestFirst(InsertNewestFirst(x, t))
    decreases |t|
  {
    var r := InsertNewestFirst(x, t);
    if |t| == 0 {
    } else if !Timestamps.Less(x.updatedAt, t[0].updatedAt) {
      Timestamps.LessIrreflexive(t[0].updatedAt);
      forall i, j | 0 <= i < j < |r|
        ensures Timestamps.AtMost(r[j].updatedAt, r[i].updatedAt)
      {
        if i == 0 {
          Timestamps.AtMostTransitive(t[j - 1].updatedAt, t[0].updatedAt, x.updatedAt);
        }
      }
    } else {
      var rest := InsertNewestFirst(x, t[1..]);
      InsertKeepsSorted(x, t[1..]);
      Timestamps.LessAsymmetric(x.updatedAt, t[0].updatedAt);
      forall j | 0 <= j < |rest|
        ensures Timestamps.AtMost(rest[j].updatedAt, t[0].updatedAt)
      {
        assert rest[j] in multiset(rest);
        if rest[j] != x {
          assert rest[j] in multiset(t[1..]);
          var k :| 0 <= k < |t[1..]| && t[1..][k] == rest[j];
          assert t[k + 1] == rest[j];
        }
      }
    }
  }

  /** The record `s[i]` is a freshest one, and the first freshest one in `s`. */
  ghost predicate FreshestFirst(s: seq<Artifact>, i: int) {
    && 0 <= i < |s|
    && (forall j :: 0 <= j < |s| ==> Timestamps.AtMost(s[j].updatedAt, s[i].updatedAt))
    && (forall j :: 0 <= j < i ==> Timestamps.Less(s[j].updatedAt, s[i].updatedAt))
  }

  /** A reference choice made without sorting: scan for the first record
      whose timestamp no other record exceeds. */
  function FreshestIndex(s: seq<Artifact>): (i: nat)
    requires |s| > 0
    ensures i < |s|
  {
    if |s| == 1 then 0
    else
      var k := 1 + FreshestIndex(s[1..]);
      if Timestamps.Less(s[0].updatedAt, s[k].updatedAt) then k else 0
  }

  lemma {:induction false} FreshestIndexIsFreshestFirst(s: seq<Artifact>)
    requires |s| > 0
    ensures FreshestFirst(s, FreshestIndex(s))
    decreases |s|
  {
    if |s| > 1 {
      var t := s[1..];
      FreshestIndexIsFreshestFirst(t);
      var k := 1 + FreshestIndex(t);
      assert s[k] == t[k - 1];
      if Timestamps.Less(s[0].updatedAt, s[k].updatedAt) {
        Timestamps.LessAsymmetric(s[0].updatedAt, s[k].updatedAt);
        forall j | 1 <= j < |s|
          ensures Timestamps.AtMost(s[j].updatedAt, s[k].updatedAt)
        {
          assert s[j] == t[j - 1];
        }
        forall j | 1 <= j < k
          ensures Timestamps.Less(s[j].updatedAt, s[k].updatedAt)
        {
          assert s[j] == t[j - 1];
        }
      } else {
        Timestamps.LessIrreflexive(s[0].updatedAt);
        forall j | 0 <= j < |s|
          ensures Timestamps.AtMost(s[j].updatedAt, s[0].updatedAt)
        {
          if j > 0 {
            assert s[j] == t[j - 1];
            assert Timestamps.AtMost(s[j].updatedAt, s[k].updatedAt);
            Timestamps.AtMostTransitive(s[j].updatedAt, s[k].updatedAt, s[0].updatedAt);
          }
        }
        assert FreshestIndex(s) == 0;
      }
    } else {
      Timestamps.LessIrreflexive(s[0].updatedAt);
    }
  }

  /** The first freshest wanted record is a listed, wanted record that no
      other listed wanted record is fresher than. */
  lemma FreshestWantedIsFreshestListed(arts: seq<Artifact>, name: string, branch: string, j: int)
    requires FreshestFirst(FilterWanted(arts, name, branch), j)
    ensures var w := FilterWanted(arts, name, branch);
      && w[j] in arts
      && Wanted(w[j], name, branch)
      && forall b :: b in arts && Wanted(b, name, branch) ==> Timestamps.AtMost(b.updatedAt, w[j].updatedAt)
  {
    var w := FilterWanted(arts, name, branch);
    assert multiset(w)[w[j]] > 0;
    forall b | b in arts && Wanted(b, name, branch)
      ensures Timestamps.AtMost(b.updatedAt, w[j].updatedAt)
    {
      assert multiset(arts)[b] > 0;
      assert b in multiset(w);
      var k :| 0 <= k < |w| && w[k] == b;
    }
  }

  /** The head of the stable newest-first sort is the record the scan picks. */
  lemma {:induction false} SortHeadIsFreshestIndex(s: seq<Artifact>)
    requires |s| > 0
    ensures |SortNewestFirst(s)| == |s|
    ensures SortNewestFirst(s)[0] == s[FreshestIndex(s)]
    decreases |s|
  {
    assert |multiset(SortNewestFirst(s))| == |multiset(s)|;
    if |s| > 1 {
      var t := s[1..];
      SortHeadIsFreshestIndex(t);
    }
  }

  /** `wanted_artifacts[0]` after the sort: the first of the freshest wanted
      records, or nothing when none is wanted. */
  function SelectFreshest(wanted: seq<Artifact>): (r: Option<Artifact>)
    ensures r.Some? <==> |wanted| > 0
    ensures r.Some? ==> exists i :: FreshestFirst(wanted, i) && r.value == wanted[i]
  {
    if |wanted| == 0 then None
    else
      SortHeadIsFreshestIndex(wanted);
      FreshestIndexIsFreshestFirst(wanted);
      Some(SortNewestFirst(wanted)[0])
  }

  /** The artifact the script deploys out of a listing: the freshest of the
      wanted ones, or none when nothing listed is wanted. */
  function Pick(arts: seq<Artifact>, name: string, branch: string): (r: Option<Artifact>)
    ensures r.None? <==> forall a :: a in arts ==> !Wanted(a, name, branch)
  {
    FilterWantedEmptyIff(arts, name, branch);
    SelectFreshest(FilterWanted(arts, name, branch))
  }
}
