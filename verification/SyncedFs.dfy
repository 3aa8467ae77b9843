/** The pull loops, the reconciler and the deletion scan as they run: tables changed in place, a
    page of the listing at a time. */
module SyncedFs {
  import opened Wrappers
  import opened Timestamps
  import opened Reconcile
  import opened SyncedTables
  import Namespace

  function Page<T>(listing: seq<T>, page: nat): seq<T>
    requires page >= 1
  {
    var lo, hi := (page - 1) * PAGE_SIZE, page * PAGE_SIZE;
    if lo >= |listing| then [] else listing[lo..if hi < |listing| then hi else |listing|]
  }

  /** How many items the pages before `page` hold. */
  function Before<T>(listing: seq<T>, page: nat): nat
    requires page >= 1
  {
    if (page - 1) * PAGE_SIZE < |listing| then (page - 1) * PAGE_SIZE else |listing|
  }

  /** A page continues where the pages before it ended; the last one ends the listing. */
  lemma PageContinues<T>(listing: seq<T>, page: nat)
    requires page >= 1
    ensures
      var docs, n := Page(listing, page), Before(listing, page);
      && n + |docs| == Before(listing, page + 1) <= |listing| && docs == listing[n..n + |docs|]
      && (docs == [] ==> n == |listing|) && (page >= PageCount(|listing|) ==> n + |docs| == |listing|)
  {
  }

  /** How far a pull has come: the cache, and the newest stamp met. */
  datatype Progress = Progress(cache: Tables, newest: string)

  ghost function PullStep(p: Progress, v: Version): Progress
    requires v.place != [] && v.errorPlace != []
  {
    Progress(ReconciledRows(p.cache, v), if StrLess(p.newest, v.stamp) then v.stamp else p.newest)
  }

  /** The progress after each number of listed versions. */
  ghost function Trace(start: Progress, listing: seq<Version>): (r: seq<Progress>)
    requires Placed(listing)
    ensures |r| == |listing| + 1
  {
    if listing == [] then [start]
    else
      var before := Trace(start, listing[..|listing| - 1]);
      before + [PullStep(before[|listing| - 1], listing[|listing| - 1])]
  }

  /** Each progress follows from the one before by the next listed version. */
  ghost predicate Steps(at: seq<Progress>, listing: seq<Version>) {
    && Placed(listing) && |at| == |listing| + 1
    && forall n {:trigger PullStep(at[n], listing[n])} | 0 <= n < |listing| :: at[n + 1] == PullStep(at[n], listing[n])
  }

  lemma {:induction false} TraceSteps(start: Progress, listing: seq<Version>)
    requires Placed(listing)
    ensures Steps(Trace(start, listing), listing) && Trace(start, listing)[0] == start
  {
    if listing != [] {
      var init := listing[..|listing| - 1];
      TraceSteps(start, init);
      var before, at := Trace(start, init), Trace(start, listing);
      forall n | 0 <= n < |listing| ensures at[n + 1] == PullStep(at[n], listing[n]) {
        assert n < |init| ==> before[n + 1] == PullStep(before[n], init[n]);
      }
    }
  }

  /** The progress after `n` versions is the fold over the first `n`. */
  lemma {:induction false} TraceFolds(start: Progress, listing: seq<Version>, n: nat)
    requires Placed(listing) && n <= |listing|
    ensures Trace(start, listing)[n]
            == Progress(ReconcileAllRows(start.cache, listing[..n]), Newest(start.newest, listing[..n]))
    decreases |listing|
  {
    if listing == [] {
    } else if n < |listing| {
      var init := listing[..|listing| - 1];
      TraceFolds(start, init, n);
      assert init[..n] == listing[..n];
    } else {
      TraceFolds(start, listing[..n - 1], n - 1);
      assert listing[..n - 1][..n - 1] == listing[..n - 1] && listing[..n] == listing;
    }
  }

  /** None of the first `n` versions is at or below the watermark. */
  ghost predicate NoneSeen(watermark: string, listing: seq<Version>, n: nat) {
    n <= |listing| && forall k | 0 <= k < n :: !Seen(watermark, listing[k])
  }

  lemma PageUnseen(watermark: string, listing: seq<Version>, lo: nat, docs: seq<Version>, n: nat)
    requires NoneSeen(watermark, listing, lo) && lo + |docs| <= |listing| && docs == listing[lo..lo + |docs|]
    requires NoneSeen(watermark, docs, n)
    ensures NoneSeen(watermark, listing, lo + n)
  {
    assert forall k | lo <= k < lo + n :: listing[k] == docs[k - lo];
  }

  lemma {:induction false} UnseenAtLeast(watermark: string, listing: seq<Version>, n: nat)
    requires NoneSeen(watermark, listing, n)
    ensures n <= Unseen(watermark, listing)
  {
    if n > 0 {
      assert !Seen(watermark, listing[0]);
      UnseenAtLeast(watermark, listing[1..], n - 1);
    }
  }

  lemma {:induction false} UnseenIs(watermark: string, listing: seq<Version>, n: nat)
    requires NoneSeen(watermark, listing, n) && (n < |listing| ==> Seen(watermark, listing[n]))
    ensures Unseen(watermark, listing) == n
  {
    if n > 0 {
      assert !Seen(watermark, listing[0]);
      UnseenIs(watermark, listing[1..], n - 1);
    }
  }

  /** Asking for one page too many means that the pages there are hold nothing that would end the loop. */
  lemma AskedTooMuch<T>(listing: seq<T>, page: nat, served: nat, wanted: nat)
    requires 1 <= page && page == served + 1 && (page == 1 || page <= PageCount(|listing|))
             && Before(listing, page) <= wanted
    ensures CutShort(wanted, |listing|, served) && listing[..Before(listing, page)] == Met(listing, served)
  {
  }

  /** A loop that ends on a page there is was not cut short. */
  lemma EndedInTime<T>(listing: seq<T>, page: nat, served: nat, wanted: nat)
    requires 1 <= page <= served && (wanted < Before(listing, page + 1) || Before(listing, page + 1) == |listing|)
    requires wanted <= |listing|
    ensures !CutShort(wanted, |listing|, served)
  {
  }

  // ---- One document, one inode ----

  lemma {:induction false} EnsureKeeps(t: Tables, l: Location, n: nat)
    requires n <= |l|
    ensures EnsureRows(t, l, n).tables.remote == t.remote && EnsureRows(t, l, n).tables.watermark == t.watermark
  {
    if n > 0 {
      EnsureKeeps(t, l, n - 1);
    }
  }

  lemma RenameKeeps(t: Tables, i: Ino, l: Location)
    requires l != []
    ensures ParentRows(t, l).tables.remote == t.remote && ParentRows(t, l).tables.watermark == t.watermark
    ensures RenameTo(t, i, l).Some? ==>
              RenameTo(t, i, l).value.remote == t.remote && RenameTo(t, i, l).value.watermark == t.watermark
  {
    EnsureKeeps(t, l, |l| - 1);
  }

  lemma DerivedKeeps(t: Tables, v: Version)
    requires v.errorPlace != []
    ensures ErrorRow(t, v).remote == t.remote && ErrorRow(t, v).watermark == t.watermark
  {
    EnsureKeeps(t, v.errorPlace, |v.errorPlace| - 1);
  }

  lemma MirroringKeeps(t: Tables, i: Ino, v: Version)
    requires i in t.remote
    ensures
      var u := SetMirrored(Rewrite(t, i, v.content), i, v.ms);
      && u.watermark == t.watermark && u.remote.Keys == t.remote.Keys
      && forall j | j in t.remote :: u.remote[j].id == t.remote[j].id
  {
  }

  /** Updating a mapped inode keeps who is mapped to what, and the watermark. */
  lemma UpdateKeeps(t: Tables, i: Ino, v: Version)
    requires i in t.remote && v.place != [] && v.errorPlace != []
    ensures
      var u := UpdateRows(t, i, v).0;
      && u.watermark == t.watermark && u.remote.Keys == t.remote.Keys
      && forall j | j in t.remote :: u.remote[j].id == t.remote[j].id
  {
    RenameKeeps(t, i, v.place);
    var m := RenameTo(t, i, v.place);
    if m.Some? {
      DerivedKeeps(m.value, v);
      MirroringKeeps(m.value, i, v);
    }
  }

  lemma PlacingKeeps(t: Tables, k: Namespace.Key, v: Version) returns (i: Ino)
    ensures
      var u := AttachOrInsert(t, k, v).0;
      u.watermark == t.watermark && MapsOnly(t.remote, u.remote, i, v.id)
  {
    i := if k in t.names then t.names[k] else t.next;
  }

  /** A new document is mapped to one inode, and the watermark kept. */
  lemma AddKeeps(t: Tables, v: Version) returns (i: Ino)
    requires v.place != [] && v.errorPlace != []
    ensures
      var u := AddRows(t, v).0;
      u.watermark == t.watermark && MapsOnly(t.remote, u.remote, i, v.id)
  {
    DerivedKeeps(t, v);
    EnsureKeeps(t, v.place, |v.place| - 1);
    i := PlacingKeeps(ParentRows(t, v.place).tables, KeyOf(ParentRows(t, v.place), v.place), v);
  }

  /** `after` is `before`, or `before` with `i` mapped to the document. */
  predicate MapsOnly(before: map<Ino, Mirror>, after: map<Ino, Mirror>, i: Ino, id: DocId) {
    after == before || (i in after && after[i].id == id && after == before[i := after[i]])
  }

  /** Reconciling never maps a document twice, and leaves the watermark. */
  lemma ReconcileKeepsInjective(t: Tables, v: Version)
    requires v.place != [] && v.errorPlace != [] && Injective(t.remote)
    ensures Injective(ReconciledRows(t, v).remote) && ReconciledRows(t, v).watermark == t.watermark
  {
    var existing := InoOf(t, v.id);
    if existing.Some? {
      UpdateKeeps(t, existing.value, v);
    } else {
      var i := AddKeeps(t, v);
    }
  }

  function Ids(s: Tables): set<DocId> {
    set i | i in s.remote :: s.remote[i].id
  }

  lemma {:induction false} ReconcileAllKeepsWatermark(t: Tables, vs: seq<Version>)
    requires Placed(vs) && Injective(t.remote)
    ensures ReconcileAllRows(t, vs).watermark == t.watermark && Injective(ReconcileAllRows(t, vs).remote)
  {
    if vs != [] {
      var init := vs[..|vs| - 1];
      ReconcileAllKeepsWatermark(t, init);
      ReconcileKeepsInjective(ReconcileAllRows(t, init), vs[|vs| - 1]);
    }
  }

  /** The rows gone so far when the documents `handled` have been looked at. */
  function GoneAmong(s: Tables, listed: set<DocId>, handled: set<DocId>): set<Ino> {
    set i | i in GoneRows(s, listed) && s.remote[i].id in handled
  }

  /** What is left after some removals decides about one more document as the start did. */
  lemma RemoveOneMore(s: Tables, listed: set<DocId>, handled: set<DocId>, i: Ino)
    requires Injective(s.remote) && i in s.remote && s.remote[i].id !in handled
    ensures
      var id, done := s.remote[i].id, GoneAmong(s, listed, handled);
      var t := RemoveRows(s, done);
      && i !in done && i in t.remote && t.remote[i].id == id && Injective(t.remote)
      && (i in t.dirty <==> i in s.dirty) && RowsOf(t, i) == RowsOf(s, i)
      && (i in GoneRows(s, listed) ==>
            GoneAmong(s, listed, handled + {id}) == done + {i} && RemoveRows(t, {i}) == RemoveRows(s, done + {i}))
      && (i !in GoneRows(s, listed) ==> GoneAmong(s, listed, handled + {id}) == done)
  {
    var id, done := s.remote[i].id, GoneAmong(s, listed, handled);
    var t := RemoveRows(s, done);
    forall j | j in GoneAmong(s, listed, handled + {id}) ensures j in done || j == i {
      assert s.remote[j].id == id ==> j == i;
    }
    assert RowsOf(t, i) == RowsOf(s, i);
    if i in GoneRows(s, listed) {
      assert GoneAmong(s, listed, handled + {id}) == done + {i};
      RemoveTwice(s, done, {i});
    } else {
      assert GoneAmong(s, listed, handled + {id}) == done;
    }
  }

  lemma RemoveTwice(s: Tables, a: set<Ino>, b: set<Ino>)
    ensures RemoveRows(RemoveRows(s, a), b) == RemoveRows(s, a + b)
  {
    var t, u := RemoveRows(RemoveRows(s, a), b), RemoveRows(s, a + b);
    assert t.names == u.names;
    assert t.content == u.content && t.remote == u.remote && t.dirty == u.dirty;
    assert t.dirs == u.dirs && t.derived == u.derived;
  }

  lemma RemoveNothing(s: Tables)
    ensures RemoveRows(s, {}) == s
  {
    assert RemoveRows(s, {}).names == s.names;
  }

  lemma NoneHandled(s: Tables, listed: set<DocId>)
    ensures GoneAmong(s, listed, Ids(s) - Ids(s)) == {} && RemoveRows(s, GoneAmong(s, listed, Ids(s) - Ids(s))) == s
  {
    assert GoneAmong(s, listed, Ids(s) - Ids(s)) == {};
    RemoveNothing(s);
  }

  lemma AllHandled(s: Tables, listed: set<DocId>)
    ensures GoneAmong(s, listed, Ids(s) - {}) == GoneRows(s, listed)
  {
  }

  /** The tables the pull side works on. */
  class Cache {
    var names: map<Namespace.Key, Ino>
    var dirs: set<Ino>
    var content: map<Ino, string>
    var dirty: map<Ino, int>
    var derived: set<Ino>
    var remote: map<Ino, Mirror>
    var next: Ino
    var watermark: string

    ghost predicate Valid()
      reads this
    {
      Injective(remote)
    }

    function State(): Tables
      reads this
    {
      Store(names, dirs, content, dirty, derived, remote, next, watermark)
    }

    constructor ()
      ensures Valid() && State() == Store(map[], {}, map[], map[], {}, map[], 2, "")
    {
      names, dirs, content, dirty, derived, remote, next, watermark := map[], {}, map[], map[], {}, map[], 2, "";
    }

    // ---- Small steps ----

    /** `ensure_dirs`: a new directory for each missing component of the first `n`; returns the
        inode of the last. */
    method EnsureDirs(l: Location, n: nat) returns (ino: Ino)
      requires n <= |l|
      modifies this
      ensures Spot(State(), ino) == EnsureRows(old(State()), l, n)
    {
      ino := ROOT;
      var k := 0;
      while k < n
        invariant k <= n && Spot(State(), ino) == EnsureRows(old(State()), l, k)
      {
        var part := l[k];
        if (ino, part) in names {
          ino := names[(ino, part)];
        } else {
          names, dirs := names[(ino, part) := next], dirs + {next};
          ino, next := next, next + 1;
        }
        k := k + 1;
      }
    }

    method InoByRemoteId(id: DocId) returns (r: Option<Ino>)
      requires Valid()
      ensures r == InoOf(State(), id)
    {
      r := None;
      if i :| i in remote && remote[i].id == id {
        r := Some(i);
      }
    }

    /** `apply_rename_to`: the inode's one row gets the new parent and name, or nothing moves. What
        is filed below the inode goes with it. */
    method ApplyRenameTo(i: Ino, l: Location) returns (ok: bool)
      requires l != []
      modifies this
      ensures
        var made := ParentRows(old(State()), l);
        var moved := MoveRow(made.tables, i, KeyOf(made, l));
        ok == moved.Some? && State() == if ok then moved.value else made.tables
    {
      var up := EnsureDirs(l, |l| - 1);
      var k, rows := (up, l[|l| - 1]), RowsOf(State(), i);
      if |rows| != 1 || (k in names && names[k] != i) {
        return false;
      }
      names := (names - rows)[k := i];
      return true;
    }

    method SetMirroredState(i: Ino, ms: Option<int>)
      modifies this
      ensures State() == SetMirrored(old(State()), i, ms)
    {
      if i in remote && ms.Some? {
        remote := remote[i := remote[i].(mirrored := ms)];
      }
    }

    /** `create_derived_sibling`: refuses to write over a file it did not derive. */
    method CreateDerivedSibling(l: Location, text: string) returns (ok: bool)
      requires l != []
      modifies this
      ensures State() == DeriveRow(old(State()), l, text)
      ensures
        var made := ParentRows(old(State()), l);
        ok <==> (KeyOf(made, l) in made.tables.names ==> made.tables.names[KeyOf(made, l)] in made.tables.derived)
    {
      var up := EnsureDirs(l, |l| - 1);
      var k := (up, l[|l| - 1]);
      if k in names {
        if names[k] !in derived {
          return false;
        }
        content := content[names[k] := text];
      } else {
        names, content, derived, next := names[k := next], content[next := text], derived + {next}, next + 1;
      }
      return true;
    }

    method SyncErrorFile(v: Version)
      requires v.errorPlace != []
      modifies this
      ensures State() == ErrorRow(old(State()), v)
    {
      if v.status == Failed {
        var _ := CreateDerivedSibling(v.errorPlace, v.report);
      }
    }

    // ---- Reconciling ----

    method UpdateMapped(i: Ino, v: Version) returns (outcome: Outcome)
      requires Valid() && i in remote && v.place != [] && v.errorPlace != []
      modifies this
      ensures (State(), outcome) == UpdateRows(old(State()), i, v)
    {
      if i in dirty && v.ms.Some? && dirty[i] > v.ms.value {
        return SkippedDirty;
      }
      if remote[i].mirrored.Some? && v.ms.Some? && remote[i].mirrored.value >= v.ms.value && v.status == Done {
        return Unchanged;
      }
      if !IsAt(State(), i, v.place) {
        var ok := ApplyRenameTo(i, v.place);
        if !ok {
          return Refused;
        }
      }
      if v.status == Done {
        if v.content.Some? {
          content := content[i := v.content.value];
        }
        SetMirroredState(i, v.ms);
      } else {
        SyncErrorFile(v);
      }
      return Updated;
    }

    method CreateOrAttach(v: Version) returns (outcome: Outcome)
      requires v.place != [] && v.errorPlace != []
      modifies this
      ensures (State(), outcome) == AddRows(old(State()), v)
    {
      if v.status != Done {
        SyncErrorFile(v);
        return Deferred;
      }
      var up := EnsureDirs(v.place, |v.place| - 1);
      var k := (up, v.place[|v.place| - 1]);
      if k in names {
        var i := names[k];
        remote := remote[i := Mirror(v.id, None)];
        if i in dirty && v.ms.Some? && dirty[i] > v.ms.value {
          return SkippedDirty;
        }
        if v.content.Some? {
          content := content[i := v.content.value];
        }
        SetMirroredState(i, v.ms);
        return Attached;
      }
      var i := next;
      names, next := names[k := i], next + 1;
      content := content[i := if v.content.Some? then v.content.value else ""];
      remote := remote[i := Mirror(v.id, None)];
      SetMirroredState(i, v.ms);
      return Created;
    }

    /** `reconcile_one`. */
    method ReconcileDoc(v: Version) returns (outcome: Outcome)
      requires Valid() && v.place != [] && v.errorPlace != []
      modifies this
      ensures Valid() && (State(), outcome) == ReconcileRows(old(State()), v)
    {
      ReconcileKeepsInjective(State(), v);
      var existing := InoByRemoteId(v.id);
      match existing
      case Some(i) => outcome := UpdateMapped(i, v);
      case None => outcome := CreateOrAttach(v);
    }

    // ---- Pulling ----

    /** The cache and the newest stamp are as after the first `n` listed versions. */
    ghost predicate Pulled(at: seq<Progress>, n: nat, newest: string)
      reads this
    {
      n < |at| && Valid() && Progress(State(), newest) == at[n]
    }

    method PullDoc(doc: Version, sofar: string, ghost at: seq<Progress>, ghost listing: seq<Version>, ghost n: nat)
      returns (newest: string)
      requires Steps(at, listing) && n < |listing| && doc == listing[n] && Pulled(at, n, sofar)
      modifies this
      ensures Pulled(at, n + 1, newest)
    {
      assert at[n + 1] == PullStep(at[n], listing[n]);
      var _ := ReconcileDoc(doc);
      newest := if StrLess(sofar, doc.stamp) then doc.stamp else sofar;
    }

    /** One page of a delta pull: stops at a version at or below the watermark `lastSeen`. */
    method DeltaPage(docs: seq<Version>, lastSeen: string, sofar: string, ghost at: seq<Progress>,
                     ghost listing: seq<Version>, ghost lo: nat)
      returns (reconciled: nat, newest: string, hit: bool)
      requires Steps(at, listing) && lo + |docs| <= |listing| && docs == listing[lo..lo + |docs|]
               && Pulled(at, lo, sofar)
      modifies this
      ensures reconciled <= |docs| && Pulled(at, lo + reconciled, newest)
      ensures NoneSeen(lastSeen, docs, reconciled)
      ensures if hit then reconciled < |docs| && Seen(lastSeen, docs[reconciled]) else reconciled == |docs|
    {
      reconciled, newest, hit := 0, sofar, false;
      while reconciled < |docs|
        invariant reconciled <= |docs| && Pulled(at, lo + reconciled, newest)
        invariant NoneSeen(lastSeen, docs, reconciled)
      {
        hit := Seen(lastSeen, docs[reconciled]);
        if hit {
          break;
        }
        newest := PullDoc(docs[reconciled], newest, at, listing, lo + reconciled);
        reconciled := reconciled + 1;
      }
    }

    /** `delta_pull`: page by page, newest first, until the watermark or the last page, or until a
        page after the first `served` is asked for: the call then fails, but what was reconciled
        stays, and the watermark is not moved. */
    method DeltaPull(listing: seq<Version>, served: nat) returns (r: Result<nat, ()>)
      requires Valid() && Placed(listing)
      modifies this
      ensures Valid() && State() == DeltaRows(old(State()), listing, served)
      ensures
        var n := Unseen(old(watermark), listing);
        r == if CutShort(n, |listing|, served) then Err(()) else Ok(n)
    {
      var lastSeen := watermark;
      ghost var start := Progress(State(), lastSeen);
      TraceSteps(start, listing);
      var reconciled, newest, whole := DeltaPages(lastSeen, listing, served, Trace(start, listing));
      TraceFolds(start, listing, reconciled);
      ReconcileAllKeepsWatermark(start.cache, listing[..reconciled]);
      if !whole {
        return Err(());
      }
      if newest != "" && newest != lastSeen {
        watermark := newest;
      }
      return Ok(reconciled);
    }

    method DeltaPages(lastSeen: string, listing: seq<Version>, served: nat, ghost at: seq<Progress>)
      returns (reconciled: nat, newest: string, whole: bool)
      requires Steps(at, listing) && Pulled(at, 0, lastSeen)
      modifies this
      ensures reconciled <= |listing| && Pulled(at, reconciled, newest)
      ensures whole <==> !CutShort(Unseen(lastSeen, listing), |listing|, served)
      ensures if whole then reconciled == Unseen(lastSeen, listing) else listing[..reconciled] == Met(listing, served)
    {
      var page := 1;
      reconciled, newest, whole := 0, lastSeen, true;
      while true
        invariant page >= 1 && whole && reconciled == Before(listing, page) && Pulled(at, reconciled, newest)
        invariant NoneSeen(lastSeen, listing, reconciled)
        invariant page == 1 || (page <= served + 1 && page <= PageCount(|listing|))
        decreases |listing| - reconciled
      {
        if page > served {
          whole := false;
          UnseenAtLeast(lastSeen, listing, reconciled);
          AskedTooMuch(listing, page, served, Unseen(lastSeen, listing));
          return;
        }
        PageContinues(listing, page);
        var docs := Page(listing, page);
        if docs == [] {
          break;
        }
        var n, hit;
        n, newest, hit := DeltaPage(docs, lastSeen, newest, at, listing, reconciled);
        PageUnseen(lastSeen, listing, reconciled, docs, n);
        reconciled := reconciled + n;
        if hit || page >= PageCount(|listing|) {
          break;
        }
        page := page + 1;
      }
      UnseenIs(lastSeen, listing, reconciled);
      EndedInTime(listing, page, served, reconciled);
    }

    /** `full_pull`: every page, whatever the watermark, or as far as pages can be listed. */
    method FullPull(listing: seq<Version>, served: nat) returns (r: Result<nat, ()>)
      requires Valid() && Placed(listing)
      modifies this
      ensures Valid() && State() == FullRows(old(State()), listing, served)
      ensures r == if CutShort(|listing|, |listing|, served) then Err(()) else Ok(|listing|)
    {
      ghost var start := Progress(State(), "");
      TraceSteps(start, listing);
      var reconciled, newest, whole := FullPages(listing, served, Trace(start, listing));
      TraceFolds(start, listing, reconciled);
      if !whole {
        return Err(());
      }
      assert listing[..|listing|] == listing;
      if newest != "" {
        watermark := newest;
      }
      return Ok(reconciled);
    }

    method FullPages(listing: seq<Version>, served: nat, ghost at: seq<Progress>)
      returns (reconciled: nat, newest: string, whole: bool)
      requires Steps(at, listing) && Pulled(at, 0, "")
      modifies this
      ensures reconciled <= |listing| && Pulled(at, reconciled, newest)
      ensures whole <==> !CutShort(|listing|, |listing|, served)
      ensures if whole then reconciled == |listing| else listing[..reconciled] == Met(listing, served)
    {
      var page := 1;
      reconciled, newest, whole := 0, "", true;
      while true
        invariant page >= 1 && whole && reconciled == Before(listing, page) && Pulled(at, reconciled, newest)
        invariant page == 1 || (page <= served + 1 && page <= PageCount(|listing|))
        decreases |listing| - reconciled
      {
        if page > served {
          whole := false;
          return;
        }
        PageContinues(listing, page);
        var docs := Page(listing, page);
        if docs == [] {
          break;
        }
        newest := FullPage(docs, newest, at, listing, reconciled);
        reconciled := reconciled + |docs|;
        if page >= PageCount(|listing|) {
          break;
        }
        page := page + 1;
      }
    }

    method FullPage(docs: seq<Version>, sofar: string, ghost at: seq<Progress>, ghost listing: seq<Version>,
                    ghost lo: nat)
      returns (newest: string)
      requires Steps(at, listing) && lo + |docs| <= |listing| && docs == listing[lo..lo + |docs|]
               && Pulled(at, lo, sofar)
      modifies this
      ensures Pulled(at, lo + |docs|, newest)
    {
      newest := sofar;
      for k := 0 to |docs|
        invariant Pulled(at, lo + k, newest)
      {
        newest := PullDoc(docs[k], newest, at, listing, lo + k);
      }
    }

    // ---- Deletions ----

    /** `apply_deletion`: removes the local copy unless it is dirty or has no row. Rows filed below
        it stay. */
    method ApplyDeletion(id: DocId) returns (removed: bool)
      requires Valid()
      modifies this
      ensures
        var i := InoOf(old(State()), id);
        && removed == (i.Some? && i.value !in old(dirty) && RowsOf(old(State()), i.value) != {})
        && State() == if removed then RemoveRows(old(State()), {i.value}) else old(State())
    {
      var existing := InoByRemoteId(id);
      if existing.None? || existing.value in dirty {
        return false;
      }
      var i := existing.value;
      var rows := RowsOf(State(), i);
      if rows == {} {
        return false;
      }
      ghost var want := RemoveRows(State(), {i});
      assert want.names == names - rows;
      assert want.dirty == dirty;
      names, dirs, content, derived, remote := names - rows, dirs - {i}, content - {i}, derived - {i}, remote - {i};
      return true;
    }

    /** `deletion_scan`: collects the listed ids page by page, then removes the clean local copies of
        documents that are not among them; nothing, if a page cannot be listed. */
    method DeletionScan(listing: seq<DocId>, served: nat) returns (r: Result<nat, ()>)
      requires Valid()
      modifies this
      ensures Valid()
      ensures r.Err? <==> CutShort(|listing|, |listing|, served)
      ensures
        var listed := set id | id in listing;
        if r.Err? then State() == old(State())
        else State() == ScanRows(old(State()), listed) && r == Ok(|GoneRows(old(State()), listed)|)
    {
      var listed, whole := CollectIds(listing, served);
      if !whole {
        return Err(());
      }
      AllHandled(State(), listed);
      var removed := SweepAll(listed);
      return Ok(removed);
    }

    method SweepAll(listed: set<DocId>) returns (removed: nat)
      requires Valid()
      modifies this
      ensures Swept(old(State()), listed, {}, removed)
    {
      ghost var start := State();
      var pending := Ids(State());
      removed := 0;
      NoneHandled(start, listed);
      while pending != {}
        invariant pending <= Ids(start) && Swept(start, listed, pending, removed)
        decreases |pending|
      {
        var id :| id in pending;
        removed := Sweep(listed, id, removed, start, pending);
        pending := pending - {id};
      }
    }

    /** All but the `pending` documents have been looked at, and `removed` local copies are gone. */
    ghost predicate Swept(start: Tables, listed: set<DocId>, pending: set<DocId>, removed: nat)
      reads this
    {
      var gone := GoneAmong(start, listed, Ids(start) - pending);
      Injective(start.remote) && Valid() && State() == RemoveRows(start, gone) && removed == |gone|
    }

    method Sweep(listed: set<DocId>, id: DocId, sofar: nat, ghost start: Tables, ghost pending: set<DocId>)
      returns (removed: nat)
      requires id in pending && pending <= Ids(start) && Swept(start, listed, pending, sofar)
      modifies this
      ensures Swept(start, listed, pending - {id}, removed)
    {
      ghost var i :| i in start.remote && start.remote[i].id == id;
      RemoveOneMore(start, listed, Ids(start) - pending, i);
      assert Ids(start) - (pending - {id}) == (Ids(start) - pending) + {id};
      removed := sofar;
      if id !in listed {
        var gone := ApplyDeletion(id);
        if gone {
          removed := sofar + 1;
        }
      }
    }

    method CollectIds(listing: seq<DocId>, served: nat) returns (listed: set<DocId>, whole: bool)
      ensures whole <==> !CutShort(|listing|, |listing|, served)
      ensures whole ==> listed == set id | id in listing
    {
      listed, whole := {}, true;
      var page := 1;
      ghost var n := 0;
      while true
        invariant page >= 1 && whole && n == Before(listing, page)
        invariant page == 1 || (page <= served + 1 && page <= PageCount(|listing|))
        invariant listed == set id | id in listing[..n]
        decreases |listing| - n
      {
        if page > served {
          whole := false;
          return;
        }
        PageContinues(listing, page);
        var ids := Page(listing, page);
        if ids == [] {
          break;
        }
        assert listing[..n + |ids|] == listing[..n] + ids;
        listed := listed + set id | id in ids;
        n := n + |ids|;
        if page >= PageCount(|listing|) {
          break;
        }
        page := page + 1;
      }
      assert listing[..n] == listing;
    }
  }
}
