/** Pulls during which the server is edited: every page is a page of the listing as it is when that
    page is asked for. */
module ServedPulls {
  import opened Wrappers
  import opened Timestamps
  import opened Reconcile
  import opened Convergence

  /** The server's history at each request, growing. */
  ghost predicate Growing(hs: seq<seq<Version>>) {
    forall i, j | 0 <= i <= j < |hs| :: hs[i] <= hs[j]
  }

  function Upto(docs: seq<Version>, n: nat): seq<Version> {
    if n < |docs| then docs[..n] else docs
  }

  /** The page after the first `n`. */
  function PageAt(listing: seq<Version>, n: nat): seq<Version> {
    Upto(listing, (n + 1) * PAGE_SIZE)[if n * PAGE_SIZE < |listing| then n * PAGE_SIZE else |listing|..]
  }

  /** What the first `n` pages hold, page after page. */
  ghost function Served(hs: seq<seq<Version>>, n: nat): seq<Version>
    requires n <= |hs|
  {
    if n == 0 then [] else Served(hs, n - 1) + PageAt(Listing(hs[n - 1]), n - 1)
  }

  lemma {:induction false} PrefixValid(h: seq<Version>, more: seq<Version>)
    requires ValidHistory(h + more)
    ensures ValidHistory(h)
    decreases |more|
  {
    if more == [] {
      assert h + more == h;
    } else {
      assert (h + more)[..|h + more| - 1] == h + more[..|more| - 1];
      ValidPrefix(h + more);
      PrefixValid(h, more[..|more| - 1]);
    }
  }

  // ---- A listed document only moves down ----

  ghost predicate DistinctIds(docs: seq<Version>) {
    forall i, j | 0 <= i < j < |docs| :: docs[i].id != docs[j].id
  }

  lemma {:induction false} ExceptNone(docs: seq<Version>, id: DocId)
    requires forall d | d in docs :: d.id != id
    ensures Except(docs, id) == docs
  {
    if docs != [] {
      ExceptNone(docs[1..], id);
    }
  }

  /** Leaving one document out moves the others up by one place at most. */
  lemma {:induction false} ExceptIndex(docs: seq<Version>, id: DocId, k: nat) returns (i: nat)
    requires DistinctIds(docs) && k < |Except(docs, id)|
    ensures i < |docs| && docs[i] == Except(docs, id)[k] && i <= k + 1
  {
    assert DistinctIds(docs[1..]);
    if docs[0].id == id {
      forall d | d in docs[1..] ensures d.id != id {
        var j :| 0 <= j < |docs[1..]| && docs[1..][j] == d;
        assert docs[j + 1] == d;
      }
      ExceptNone(docs[1..], id);
      i := k + 1;
    } else if k == 0 {
      i := 0;
    } else {
      i := ExceptIndex(docs[1..], id, k - 1);
      i := i + 1;
    }
  }

  lemma {:induction false} ExceptDistinct(docs: seq<Version>, id: DocId)
    requires DistinctIds(docs)
    ensures DistinctIds(Except(docs, id))
  {
    if docs != [] {
      assert DistinctIds(docs[1..]);
      ExceptDistinct(docs[1..], id);
      ExceptKeeps(docs[1..], id);
      var rest := Except(docs[1..], id);
      if docs[0].id != id {
        assert Except(docs, id) == [docs[0]] + rest;
        forall j | 0 <= j < |rest| ensures rest[j].id != docs[0].id {
          assert rest[j] in rest && rest[j] in docs[1..];
        }
      }
    }
  }

  lemma {:induction false} ListingDistinct(h: seq<Version>)
    ensures DistinctIds(Listing(h))
  {
    if h != [] {
      var init, last := h[..|h| - 1], h[|h| - 1];
      ListingDistinct(init);
      ExceptDistinct(Listing(init), last.id);
      ExceptKeeps(Listing(init), last.id);
      var rest := Except(Listing(init), last.id);
      assert Listing(h) == [last] + rest;
      assert forall j | 0 <= j < |rest| :: rest[j] in rest;
    }
  }

  /** A document listed before and after some edits was no further down before them. */
  lemma {:induction false} MovesDown(h: seq<Version>, more: seq<Version>, j: nat) returns (i: nat)
    requires j < |Listing(h + more)| && Listing(h + more)[j] !in more
    ensures i <= j && i < |Listing(h)| && Listing(h)[i] == Listing(h + more)[j]
    decreases |more|
  {
    if more == [] {
      assert h + more == h;
      i := j;
    } else {
      var init, last := more[..|more| - 1], more[|more| - 1];
      assert (h + more)[..|h + more| - 1] == h + init && (h + more)[|h + more| - 1] == last;
      var d := Listing(h + more)[j];
      assert Listing(h + more) == [last] + Except(Listing(h + init), last.id);
      assert last in more && j > 0;
      ListingDistinct(h + init);
      var k := ExceptIndex(Listing(h + init), last.id, j - 1);
      assert Listing(h + init)[k] == d && d !in init;
      i := MovesDown(h, init, k);
    }
  }

  // ---- What the pages cover ----

  /** Something in `docs` is no older than `d`. */
  ghost predicate Reaches(docs: seq<Version>, d: Version) {
    exists e :: e in docs && Ms(d) <= Ms(e)
  }

  /** Of the first `n` listed documents, all have been served but those newer than anything served. */
  ghost predicate Covered(served: seq<Version>, listing: seq<Version>, n: nat) {
    forall j | 0 <= j < |listing| && j < n && Reaches(served, listing[j]) :: listing[j] in served
  }

  lemma PageIndex(listing: seq<Version>, n: nat, e: Version) returns (k: nat)
    requires e in PageAt(listing, n)
    ensures n * PAGE_SIZE <= k < |listing| && k < (n + 1) * PAGE_SIZE && listing[k] == e
  {
    var x :| 0 <= x < |PageAt(listing, n)| && PageAt(listing, n)[x] == e;
    k := n * PAGE_SIZE + x;
  }

  /** One more page, of a listing that may have changed since the page before it. */
  lemma NextPage(served: seq<Version>, h: seq<Version>, more: seq<Version>, n: nat)
    requires Covered(served, Listing(h), n * PAGE_SIZE) && (forall d | d in served :: d in h) && ValidHistory(h + more)
    ensures Covered(served + PageAt(Listing(h + more), n), Listing(h + more), (n + 1) * PAGE_SIZE)
    ensures forall d | d in served + PageAt(Listing(h + more), n) :: d in h + more
  {
    var listing, page := Listing(h + more), PageAt(Listing(h + more), n);
    ListingSorted(h + more);
    forall e | e in page ensures e in listing {
      var k := PageIndex(listing, n, e);
    }
    forall j | 0 <= j < |listing| && j < (n + 1) * PAGE_SIZE && Reaches(served + page, listing[j])
      ensures listing[j] in served + page
    {
      if j >= n * PAGE_SIZE {
        assert page[j - n * PAGE_SIZE] == listing[j];
      } else {
        ReachedBefore(served, h, more, n, j);
      }
    }
  }

  lemma ReachedBefore(served: seq<Version>, h: seq<Version>, more: seq<Version>, n: nat, j: nat)
    requires Covered(served, Listing(h), n * PAGE_SIZE) && (forall d | d in served :: d in h) && ValidHistory(h + more)
    requires j < n * PAGE_SIZE && j < |Listing(h + more)|
    requires Reaches(served + PageAt(Listing(h + more), n), Listing(h + more)[j])
    ensures Listing(h + more)[j] in served
  {
    var listing, page, d := Listing(h + more), PageAt(Listing(h + more), n), Listing(h + more)[j];
    ListingSorted(h + more);
    var e :| e in served + page && Ms(d) <= Ms(e);
    if e in page {
      PageIsOlder(listing, n, j, e);
    }
    if d in more {
      LaterEdits(h, more, e, d);
    }
    var i := MovesDown(h, more, j);
    assert Reaches(served, Listing(h)[i]);
  }

  lemma PageIsOlder(listing: seq<Version>, n: nat, j: nat, e: Version)
    requires NewestFirst(listing) && j < n * PAGE_SIZE && j < |listing| && e in PageAt(listing, n)
    ensures Ms(e) < Ms(listing[j])
  {
    var k := PageIndex(listing, n, e);
  }

  lemma {:induction false} ServedCovers(hs: seq<seq<Version>>, n: nat)
    requires Growing(hs) && 0 < n <= |hs| && ValidHistory(hs[n - 1])
    ensures Covered(Served(hs, n), Listing(hs[n - 1]), n * PAGE_SIZE)
    ensures forall d | d in Served(hs, n) :: d in hs[n - 1]
  {
    if n == 1 {
      assert hs[0] + [] == hs[0];
      NextPage([], hs[0], [], 0);
    } else {
      assert hs[n - 2] <= hs[n - 1];
      var more := hs[n - 1][|hs[n - 2]|..];
      assert hs[n - 1] == hs[n - 2] + more;
      PrefixValid(hs[n - 2], more);
      ServedCovers(hs, n - 1);
      NextPage(Served(hs, n - 1), hs[n - 2], more, n - 1);
    }
  }

  // ---- The pull ----

  lemma {:induction false} NewestIsMet(seen: string, docs: seq<Version>)
    ensures Newest(seen, docs) == seen || exists e :: e in docs && e.stamp == Newest(seen, docs)
  {
    if docs != [] {
      var init, last := docs[..|docs| - 1], docs[|docs| - 1];
      NewestIsMet(seen, init);
      if Newest(seen, docs) == last.stamp {
        assert last in docs;
      }
    }
  }

  /** The pull of what was met: `watermark` is the cache's own for a delta pull, and empty for a full
      one. */
  ghost function PullMet(s: Local, met: seq<Version>, watermark: string): Local
    requires Placed(met)
  {
    var docs := met[..Unseen(watermark, met)];
    StoreWatermark(ReconcileAll(s, docs), Newest(watermark, docs))
  }

  /** What the pull stops at, and everything older, is mirrored. */
  lemma OlderIsMirrored(s: Local, h: seq<Version>, e: Version, d: Version)
    requires CaughtUp(s, h) && ValidHistory(h) && StampsAgree(h) && e in h && d in Listing(h)
    requires Seen(s.watermark, e) && Ms(d) <= Ms(e)
    ensures Mirrored(s, d)
  {
    ListingSorted(h);
    var w :| w in h && w.stamp == s.watermark;
    assert Seen(s.watermark, d);
  }

  /** Up to the document the pull stops at, the listing is covered by what was met before. */
  lemma CoveredUpTo(before: seq<Version>, h: seq<Version>, more: seq<Version>, n: nat, u: nat, j: nat)
    requires Covered(before, Listing(h), n * PAGE_SIZE) && (forall d | d in before :: d in h) && ValidHistory(h + more)
    requires |before| <= u <= |before + PageAt(Listing(h + more), n)| && j < |Listing(h + more)|
    requires j < n * PAGE_SIZE + (u - |before|) && Reaches(before + PageAt(Listing(h + more), n), Listing(h + more)[j])
    ensures Listing(h + more)[j] in (before + PageAt(Listing(h + more), n))[..u]
  {
    if j >= n * PAGE_SIZE {
      OnLastPage(before, Listing(h + more), n, u, j);
    } else {
      ReachedBefore(before, h, more, n, j);
      InFirstPart(before, PageAt(Listing(h + more), n), u, Listing(h + more)[j]);
    }
  }

  lemma OnLastPage(before: seq<Version>, listing: seq<Version>, n: nat, u: nat, j: nat)
    requires |before| <= u <= |before + PageAt(listing, n)| && j < |listing|
    requires n * PAGE_SIZE <= j < n * PAGE_SIZE + (u - |before|)
    ensures listing[j] in (before + PageAt(listing, n))[..u]
  {
    assert (before + PageAt(listing, n))[..u][|before| + (j - n * PAGE_SIZE)] == listing[j];
  }

  lemma InFirstPart(before: seq<Version>, page: seq<Version>, u: nat, d: Version)
    requires d in before && |before| <= u <= |before + page|
    ensures d in (before + page)[..u]
  {
    var x :| 0 <= x < |before| && before[x] == d;
    assert (before + page)[..u][x] == d;
  }

  /** The requests have ended: with a document at or below the watermark, or with the last page. */
  ghost predicate Ended(before: seq<Version>, listing: seq<Version>, n: nat, watermark: string) {
    var met := before + PageAt(listing, n);
    var u := Unseen(watermark, met);
    if u < |met| then |before| <= u else |listing| <= (n + 1) * PAGE_SIZE
  }

  lemma FromSeenOn(s: Local, h: seq<Version>, k: nat, j: nat)
    requires CaughtUp(s, h) && ValidHistory(h) && StampsAgree(h)
    requires k <= j < |Listing(h)| && Seen(s.watermark, Listing(h)[k])
    ensures Mirrored(s, Listing(h)[j])
  {
    ListingSorted(h);
    assert Listing(h)[j] in Listing(h) && Listing(h)[k] in Listing(h);
    OlderIsMirrored(s, h, Listing(h)[k], Listing(h)[j]);
  }

  lemma LastPageIndex(before: seq<Version>, listing: seq<Version>, n: nat, u: nat) returns (k: nat)
    requires |before| <= u < |before + PageAt(listing, n)|
    ensures k == n * PAGE_SIZE + (u - |before|) && k < |listing| && listing[k] == (before + PageAt(listing, n))[u]
  {
    k := n * PAGE_SIZE + (u - |before|);
    assert (before + PageAt(listing, n))[u] == PageAt(listing, n)[u - |before|];
  }

  /** Everything listed at the end that is no newer than something met is reconciled, or was mirrored
      before. */
  lemma MetOrMirrored(s: Local, before: seq<Version>, h: seq<Version>, more: seq<Version>, n: nat, watermark: string,
                      j: nat)
    requires Covered(before, Listing(h), n * PAGE_SIZE) && forall d | d in before :: d in h
    requires CaughtUp(s, h + more) && ValidHistory(h + more) && StampsAgree(h + more)
    requires Ended(before, Listing(h + more), n, watermark) && (watermark == "" || watermark == s.watermark)
    requires j < |Listing(h + more)| && Reaches(before + PageAt(Listing(h + more), n), Listing(h + more)[j])
    ensures
      var met, d := before + PageAt(Listing(h + more), n), Listing(h + more)[j];
      d in met[..Unseen(watermark, met)] || Mirrored(s, d)
  {
    var met := before + PageAt(Listing(h + more), n);
    var u := Unseen(watermark, met);
    if u == |met| {
      NextPage(before, h, more, n);
      assert met[..u] == met;
    } else {
      MetUpTo(s, before, h, more, n, u, j);
    }
  }

  /** When the pull stopped at the `u`th document met, which is at or below the cache's watermark. */
  lemma MetUpTo(s: Local, before: seq<Version>, h: seq<Version>, more: seq<Version>, n: nat, u: nat, j: nat)
    requires Covered(before, Listing(h), n * PAGE_SIZE) && forall d | d in before :: d in h
    requires CaughtUp(s, h + more) && ValidHistory(h + more) && StampsAgree(h + more)
    requires |before| <= u < |before + PageAt(Listing(h + more), n)|
    requires Seen(s.watermark, (before + PageAt(Listing(h + more), n))[u])
    requires j < |Listing(h + more)| && Reaches(before + PageAt(Listing(h + more), n), Listing(h + more)[j])
    ensures Listing(h + more)[j] in (before + PageAt(Listing(h + more), n))[..u] || Mirrored(s, Listing(h + more)[j])
  {
    var k := LastPageIndex(before, Listing(h + more), n, u);
    if j < k {
      CoveredUpTo(before, h, more, n, u, j);
    } else {
      FromSeenOn(s, h + more, k, j);
    }
  }

  /** What was met before the last page, and how the last page's history continues the one before. */
  lemma BeforeLast(hs: seq<seq<Version>>, n: nat) returns (h: seq<Version>, more: seq<Version>)
    requires |hs| == n + 1 && Growing(hs) && ValidHistory(hs[n])
    ensures hs[n] == h + more && Covered(Served(hs, n), Listing(h), n * PAGE_SIZE)
    ensures forall d | d in Served(hs, n) :: d in h
  {
    if n == 0 {
      h, more := hs[0], [];
    } else {
      assert hs[n - 1] <= hs[n];
      h, more := hs[n - 1], hs[n][|hs[n - 1]|..];
      PrefixValid(h, more);
      ServedCovers(hs, n);
    }
  }

  /** Storing a stamp up to which everything is mirrored leaves the cache caught up. */
  lemma StampedCaughtUp(t: Local, h: seq<Version>, e: Version)
    requires OnlyPulled(t, h) && e in h && forall d | d in Listing(h) && Seen(e.stamp, d) :: Mirrored(t, d)
    ensures CaughtUp(t.(watermark := e.stamp), h)
  {
    StampKeepsPull(t, h, e.stamp);
  }

  /** A pull of `n + 1` pages during which the server is edited, of the increment or of everything,
      leaves the cache caught up with the server as it is at the end: documents edited meanwhile may be
      missed, but they are above the watermark. */
  lemma PullWhileEdited(s: Local, hs: seq<seq<Version>>, n: nat, last: seq<Version>, watermark: string)
    requires |hs| == n + 1 && Growing(hs) && hs[n] == last && (watermark == "" || watermark == s.watermark)
    requires CaughtUp(s, last) && ValidHistory(last) && StampsAgree(last)
    requires Ended(Served(hs, n), Listing(last), n, watermark)
    ensures Placed(Served(hs, n + 1)) && CaughtUp(PullMet(s, Served(hs, n + 1), watermark), last)
  {
    var h, more := BeforeLast(hs, n);
    PullLast(s, Served(hs, n), h, more, n, watermark);
    LastServed(hs, n, h + more);
  }

  lemma LastServed(hs: seq<seq<Version>>, n: nat, last: seq<Version>)
    requires n < |hs| && hs[n] == last
    ensures Served(hs, n + 1) == Served(hs, n) + PageAt(Listing(last), n)
  {
  }

  lemma PullLast(s: Local, before: seq<Version>, h: seq<Version>, more: seq<Version>, n: nat, watermark: string)
    requires Covered(before, Listing(h), n * PAGE_SIZE) && forall d | d in before :: d in h
    requires CaughtUp(s, h + more) && ValidHistory(h + more) && StampsAgree(h + more)
    requires Ended(before, Listing(h + more), n, watermark) && (watermark == "" || watermark == s.watermark)
    ensures
      var met := before + PageAt(Listing(h + more), n);
      Placed(met) && CaughtUp(PullMet(s, met, watermark), h + more)
  {
    var met := before + PageAt(Listing(h + more), n);
    NextPage(before, h, more, n);
    var docs := met[..Unseen(watermark, met)];
    PullSome(s, h + more, docs);
    NewestIsMet(watermark, docs);
    var t, newest := ReconcileAll(s, docs), Newest(watermark, docs);
    if newest != watermark {
      var e :| e in docs && e.stamp == newest;
      forall d | d in Listing(h + more) && Seen(newest, d) ensures Mirrored(t, d) {
        UpToNewest(s, before, h, more, n, watermark, e, d);
      }
      StampedCaughtUp(t, h + more, e);
    } else {
      assert StoreWatermark(t, newest) == t;
    }
  }

  lemma UpToNewest(s: Local, before: seq<Version>, h: seq<Version>, more: seq<Version>, n: nat, watermark: string,
                   e: Version, d: Version)
    requires Covered(before, Listing(h), n * PAGE_SIZE) && forall d | d in before :: d in h
    requires CaughtUp(s, h + more) && ValidHistory(h + more) && StampsAgree(h + more)
    requires Ended(before, Listing(h + more), n, watermark) && (watermark == "" || watermark == s.watermark)
    requires
      var met := before + PageAt(Listing(h + more), n);
      e in met[..Unseen(watermark, met)] && d in Listing(h + more) && Seen(e.stamp, d)
    ensures
      var met := before + PageAt(Listing(h + more), n);
      Placed(met) && Mirrored(ReconcileAll(s, met[..Unseen(watermark, met)]), d)
  {
    var met := before + PageAt(Listing(h + more), n);
    var docs := met[..Unseen(watermark, met)];
    NextPage(before, h, more, n);
    ListingSorted(h + more);
    assert e in met && e in h + more && d in h + more;
    assert Reaches(met, d);
    var j :| 0 <= j < |Listing(h + more)| && Listing(h + more)[j] == d;
    MetOrMirrored(s, before, h, more, n, watermark, j);
    PullMany(s, h + more, docs);
    assert KeepsMirrored(s, ReconcileAll(s, docs));
  }
}
