/** How a tick collects the new signatures, page by page, newest first (app/backend/src/indexer.rs). */
module Pagination {
  import opened Wrappers
  import opened Arithmetic

  type Signature = nat

  ghost predicate Distinct(s: seq<Signature>) {
    forall i, j | 0 <= i < j < |s| :: s[i] != s[j]
  }

  /** First position of `x`, or the length. */
  function IndexOf(s: seq<Signature>, x: Signature): (i: nat)
    ensures i <= |s| && (i == |s| <==> x !in s)
    ensures i < |s| ==> s[i] == x
    ensures forall k | 0 <= k < i :: s[k] != x
  {
    if |s| == 0 || s[0] == x then 0 else 1 + IndexOf(s[1..], x)
  }

  function Min(a: nat, b: nat): nat {
    if a < b then a else b
  }

  /** One page of `getSignaturesForAddress`: at most `limit` entries older than `before`. */
  function Page(s: seq<Signature>, before: Option<Signature>, limit: nat): seq<Signature> {
    var start := if before.None? then 0 else Min(IndexOf(s, before.value) + 1, |s|);
    s[start..Min(start + limit, |s|)]
  }

  /** How many signatures are newer than the cursor. */
  function NewCount(s: seq<Signature>, last: Option<Signature>): (n: nat)
    ensures n <= |s|
  {
    if last.None? then |s| else IndexOf(s, last.value)
  }

  lemma {:induction false} IndexOfDistinct(s: seq<Signature>, i: nat)
    requires Distinct(s) && i < |s|
    ensures IndexOf(s, s[i]) == i
  {
  }

  /** After `n` entries the next page continues where they end. */
  lemma PageAt(s: seq<Signature>, n: nat, limit: nat)
    requires Distinct(s) && n <= |s|
    ensures Page(s, if n == 0 then None else Some(s[n - 1]), limit) == s[n..Min(n + limit, |s|)]
  {
    if n > 0 { IndexOfDistinct(s, n - 1); }
  }

  /** The cursor is not among the first `n`. */
  ghost predicate Unseen(s: seq<Signature>, last: Option<Signature>, n: nat)
    requires n <= |s|
  {
    last.Some? ==> forall k | 0 <= k < n :: s[k] != last.value
  }

  lemma UnseenCount(s: seq<Signature>, last: Option<Signature>, n: nat)
    requires n <= |s| && Unseen(s, last, n)
    ensures n <= NewCount(s, last)
  {
  }

  /** One more page: either the cursor is on it, or the page is all new. */
  lemma OnePage(s: seq<Signature>, last: Option<Signature>, n: nat, m: nat)
    requires n <= m <= |s| && Unseen(s, last, n)
    ensures if last.Some? && last.value in s[n..m]
            then NewCount(s, last) == n + NewCount(s[n..m], last) < m
            else NewCount(s[n..m], last) == m - n && Unseen(s, last, m)
  {
    var page := s[n..m];
    var j := NewCount(page, last);
    if last.Some? && last.value in page {
      assert s[n + j] == page[j];
      forall k | 0 <= k < n + j ensures s[k] != last.value {
        if k >= n { assert s[k] == page[k - n]; }
      }
    } else {
      forall k | n <= k < m ensures s[k] == page[k - n] {}
    }
  }

  /** What `pages` full pages hold. */
  function Entries(pages: nat, pageSize: nat): nat {
    if pages == 0 then 0 else Entries(pages - 1, pageSize) + pageSize
  }

  lemma {:induction false} EntriesIsProduct(pages: nat, pageSize: nat)
    ensures Entries(pages, pageSize) == pages * pageSize
  {
    if pages > 0 {
      EntriesIsProduct(pages - 1, pageSize);
      MulNext(pages - 1, pageSize);
    }
  }

  lemma {:induction false} EntriesGrow(a: nat, b: nat, pageSize: nat)
    requires a <= b
    ensures Entries(a, pageSize) <= Entries(b, pageSize)
    decreases b
  {
    if a < b { EntriesGrow(a, b - 1, pageSize); }
  }

  /** One request, after `n` entries were read. */
  method FetchPage(s: seq<Signature>, before: Option<Signature>, limit: nat,
      ghost n: nat) returns (page: seq<Signature>)
    requires Distinct(s) && n <= |s|
    requires before == if n == 0 then None else Some(s[n - 1])
    ensures page == s[n..Min(n + limit, |s|)]
  {
    PageAt(s, n, limit);
    page := Page(s, before, limit);
  }

  /** The inner loop: entries of one page up to the cursor. */
  method TakeNew(page: seq<Signature>, last: Option<Signature>) returns (taken: seq<Signature>, stop: bool)
    ensures taken == page[..NewCount(page, last)]
    ensures stop <==> last.Some? && last.value in page
  {
    taken := [];
    for i := 0 to |page|
      invariant taken == page[..i]
      invariant Unseen(page, last, i)
    {
      if last.Some? && page[i] == last.value {
        return taken, true;
      }
      taken := taken + [page[i]];
    }
    return taken, false;
  }

  datatype PageOutcome = Empty | Reached(sigs: seq<Signature>) | More(sigs: seq<Signature>, before: Signature)

  /** The body of the page loop, `n` signatures being collected. */
  method CollectPage(s: seq<Signature>, before: Option<Signature>, last: Option<Signature>, pageSize: nat, ghost n: nat)
    returns (outcome: PageOutcome)
    requires Distinct(s) && n <= |s| && Unseen(s, last, n)
    requires before == if n == 0 then None else Some(s[n - 1])
    ensures match outcome
            case Empty => n == |s| || pageSize == 0
            case Reached(sigs) => && n <= NewCount(s, last) < |s| && NewCount(s, last) < n + pageSize
                                  && last.Some? && s[..n] + sigs == s[..NewCount(s, last)]
            case More(sigs, b) => && n < |s| && pageSize > 0 && var m := Min(n + pageSize, |s|);
                                  && s[..n] + sigs == s[..m] && b == s[m - 1] && Unseen(s, last, m)
  {
    var pageSigs := FetchPage(s, before, pageSize, n);
    if |pageSigs| == 0 {
      return Empty;
    }
    ghost var m := Min(n + pageSize, |s|);
    OnePage(s, last, n, m);
    var taken, stop := TakeNew(pageSigs, last);
    Prefixes(s, n, m, |taken|);
    if stop {
      return Reached(taken);
    }
    return More(taken, pageSigs[|pageSigs| - 1]);
  }

  lemma Prefixes(s: seq<Signature>, n: nat, m: nat, j: nat)
    requires n <= m <= |s| && j <= m - n
    ensures s[..n] + s[n..m][..j] == s[..n + j]
  {
  }

  /**
   Collects exactly the newest min(new, maxPages full pages) signatures, each once and in order;
   the cursor is met exactly when it lies on one of the pages fetched.
   */
  method Paginate(s: seq<Signature>, last: Option<Signature>, maxPages: nat, pageSize: nat)
    returns (allSigs: seq<Signature>, reachedLast: bool)
    requires Distinct(s)
    ensures allSigs == s[..Min(NewCount(s, last), Entries(maxPages, pageSize))]
    ensures reachedLast <==> last.Some? && last.value in s && NewCount(s, last) < Entries(maxPages, pageSize)
  {
    var before: Option<Signature> := None;
    allSigs := [];
    reachedLast := false;
    ghost var n: nat := 0;
    if pageSize == 0 { EntriesIsProduct(maxPages, 0); }
    for page := 0 to maxPages
      invariant n == Min(Entries(page, pageSize), |s|)
      invariant allSigs == s[..n] && Unseen(s, last, n) && !reachedLast
      invariant before == if n == 0 then None else Some(s[n - 1])
    {
      EntriesGrow(page + 1, maxPages, pageSize);
      UnseenCount(s, last, n);
      var outcome := CollectPage(s, before, last, pageSize, n);
      match outcome {
        case Empty =>
          break;
        case Reached(sigs) =>
          allSigs := allSigs + sigs;
          reachedLast := true;
          break;
        case More(sigs, b) =>
          allSigs := allSigs + sigs;
          before := Some(b);
          n := Min(n + pageSize, |s|);
      }
    }
    UnseenCount(s, last, n);
  }
}
