/** Where pulls lead: last writer wins in any order, and pulling increments equals pulling
    everything. */
module Convergence {
  import opened Wrappers
  import opened Timestamps
  import opened Reconcile

  function Ms(v: Version): int {
    if v.ms.Some? then v.ms.value else 0
  }

  /** A finished text version with a place and a stamp that parses. */
  predicate Finished(v: Version) {
    v.status == Done && v.content.Some? && v.ms.Some? && v.place != [] && v.errorPlace != []
  }

  ghost predicate PrefixFree(ps: set<Location>) {
    forall p, q | p in ps && q in ps && p <= q :: p == q
  }

  /** Inode numbers in use are below the next one. */
  ghost predicate Numbered(s: Local) {
    && (forall l | l in s.names :: s.names[l] < s.next)
    && (forall i | i in s.remote :: i < s.next)
    && (forall i | i in s.dirty :: i < s.next)
  }

  // ---- Creating parents ----

  /** `t` has the entries of `s` and new directories at proper prefixes of `l`; nothing else changed. */
  ghost predicate Grown(s: Local, t: Local, l: Location) {
    && t.content == s.content && t.dirty == s.dirty && t.derived == s.derived && t.remote == s.remote
    && t.watermark == s.watermark && t.next >= s.next
    && (forall k | k in s.names :: k in t.names && t.names[k] == s.names[k])
    && (forall k | k in t.names && k !in s.names :: s.next <= t.names[k] < t.next && k < l)
  }

  lemma {:induction false} ParentsGrow(s: Local, l: Location, n: nat)
    requires n < |l|
    ensures Grown(s, EnsureUpTo(s, l, n), l)
  {
    if n > 0 {
      ParentsGrow(s, l, n - 1);
    }
  }

  lemma SameLocations(s: Local, t: Local, l: Location, i: Ino)
    requires Grown(s, t, l) && i < s.next
    ensures LocationsOf(t, i) == LocationsOf(s, i)
  {
  }

  // ---- One document, any order ----

  datatype View = View(content: string, location: Location, mirrored: Option<int>)

  /** What the cache shows of a document: contents, place, mirrored stamp. */
  ghost predicate Shows(s: Local, id: DocId, v: View) {
    exists i :: i in s.remote && s.remote[i] == Mirror(id, v.mirrored) && i in s.content && s.content[i] == v.content
                && LocationsOf(s, i) == {v.location}
  }

  /** The document is unmapped, or mapped to one clean file at one of the places `ps`; nothing else
      is at any of these places. */
  ghost predicate Settled(s: Local, id: DocId, ps: set<Location>) {
    && Injective(s.remote) && Numbered(s)
    && (forall i | i in s.remote && s.remote[i].id == id ::
          i in s.content && i !in s.dirty && exists p :: p in ps && LocationsOf(s, i) == {p})
    && (forall p | p in ps && p in s.names :: s.names[p] in s.remote && s.remote[s.names[p]].id == id)
  }

  function Applied(v: Version): View
    requires v.content.Some?
  {
    View(v.content.value, v.place, v.ms)
  }

  /** Last writer wins: a version replaces what is shown when it is newer than what was mirrored. */
  function Better(old_: Option<View>, v: Version): Option<View>
    requires Finished(v)
  {
    if old_.Some? && old_.value.mirrored.Some? && old_.value.mirrored.value >= Ms(v) then old_ else Some(Applied(v))
  }

  ghost predicate Showing(s: Local, id: DocId, v: Option<View>) {
    if v.Some? then Shows(s, id, v.value) else forall i | i in s.remote :: s.remote[i].id != id
  }

  /** `t` is `s` with inode `i` at `l` and nowhere else, directories added on the way. */
  ghost predicate MovedTo(s: Local, t: Local, i: Ino, l: Location) {
    && t.content == s.content && t.dirty == s.dirty && t.derived == s.derived && t.remote == s.remote
    && t.watermark == s.watermark && t.next >= s.next
    && LocationsOf(t, i) == {l}
    && (forall k | k in s.names && s.names[k] != i :: k in t.names && t.names[k] == s.names[k])
    && (forall k | k in t.names && t.names[k] != i :: (k in s.names && t.names[k] == s.names[k])
                                                    || (s.next <= t.names[k] < t.next && k < l))
  }

  /** Where a mapped inode goes when the version's place is free or its own. */
  lemma MoveSucceeds(s: Local, i: Ino, l: Location)
    requires l != [] && i < s.next && |LocationsOf(s, i)| == 1 && (l in s.names ==> s.names[l] == i)
    ensures
      Moved(s, i, l).Some? && MovedTo(s, Moved(s, i, l).value, i, l)
  {
    if LocationsOf(s, i) != {l} {
      var g := EnsureParents(s, l);
      ParentsGrow(s, l, |l| - 1);
      SameLocations(s, g, l, i);
      var t := Relocate(g, i, l).value;
      assert forall k | k in t.names :: t.names[k] == i <==> k == l;
    }
  }

  lemma MappedVersion(s: Local, id: DocId, ps: set<Location>, i: Ino, v: Version)
    requires Settled(s, id, ps) && PrefixFree(ps) && Finished(v) && v.id == id && v.place in ps
    requires i in s.remote && s.remote[i].id == id && !AlreadyMirrored(s, i, v)
    ensures
      var t := ReconcileMapped(s, i, v).0;
      Settled(t, id, ps) && Shows(t, id, Applied(v))
  {
    var l := v.place;
    MoveSucceeds(s, i, l);
    var m := Moved(s, i, l).value;
    var t := ReconcileMapped(s, i, v).0;
    assert t == m.(content := m.content[i := v.content.value], remote := m.remote[i := Mirror(id, v.ms)]);
    assert LocationsOf(t, i) == LocationsOf(m, i);
    MovedStaysSettled(s, id, ps, i, l, m);
  }

  lemma MovedStaysSettled(s: Local, id: DocId, ps: set<Location>, i: Ino, l: Location, m: Local)
    requires Settled(s, id, ps) && PrefixFree(ps) && l in ps && i in s.remote && s.remote[i].id == id
             && MovedTo(s, m, i, l)
    ensures Numbered(m)
    ensures forall p | p in ps && p in m.names :: m.names[p] == i
  {
    forall k | k in m.names ensures m.names[k] < m.next {
      if m.names[k] == i {
        assert i < s.next;
      }
    }
    forall p | p in ps && p in m.names ensures m.names[p] == i {
      assert p in s.names ==> s.names[p] == i;
    }
  }

  lemma NewVersion(s: Local, id: DocId, ps: set<Location>, v: Version)
    requires Settled(s, id, ps) && PrefixFree(ps) && Finished(v) && v.id == id && v.place in ps
    requires forall i | i in s.remote :: s.remote[i].id != id
    ensures
      var t := ReconcileNew(s, v).0;
      Settled(t, id, ps) && Shows(t, id, Applied(v))
  {
    var l := v.place;
    var t := ReconcileNew(s, v).0;
    ParentsGrow(s, l, |l| - 1);
    var g := EnsureParents(s, l);
    assert l !in g.names;
    var i := g.next;
    assert LocationsOf(t, i) == {l};
    assert t.remote[i] == Mirror(id, v.ms);
    forall p | p in ps && p in t.names ensures t.names[p] in t.remote && t.remote[t.names[p]].id == id {
      assert p != l ==> p in s.names;
    }
  }

  /** Reconciling a finished version shows the better of what was shown and the version; when that
      is no change, nothing at all changes. */
  lemma VersionStep(s: Local, id: DocId, ps: set<Location>, shown: Option<View>, v: Version)
    requires Settled(s, id, ps) && PrefixFree(ps) && Finished(v) && v.id == id && v.place in ps
    requires Showing(s, id, shown)
    ensures Settled(Reconciled(s, v), id, ps) && Showing(Reconciled(s, v), id, Better(shown, v))
    ensures Better(shown, v) == shown && shown.Some? && shown.value.mirrored.Some?
            && shown.value.mirrored.value >= Ms(v)
            ==> Reconciled(s, v) == s
  {
    var existing := InoOf(s, id);
    if existing.Some? {
      var i := existing.value;
      if !AlreadyMirrored(s, i, v) {
        MappedVersion(s, id, ps, i, v);
      }
    } else {
      NewVersion(s, id, ps, v);
    }
  }

  /** Finished versions of one document at places in `ps`. */
  ghost predicate Versions(id: DocId, ps: set<Location>, vs: seq<Version>) {
    forall v | v in vs :: Finished(v) && v.id == id && v.place in ps
  }

  function BestOf(shown: Option<View>, vs: seq<Version>): Option<View>
    requires forall v | v in vs :: Finished(v)
  {
    if vs == [] then shown else Better(BestOf(shown, vs[..|vs| - 1]), vs[|vs| - 1])
  }

  lemma {:induction false} FoldShowsBest(s: Local, id: DocId, ps: set<Location>, shown: Option<View>, vs: seq<Version>)
    requires Settled(s, id, ps) && PrefixFree(ps) && Versions(id, ps, vs) && Showing(s, id, shown)
    ensures Settled(ReconcileAll(s, vs), id, ps) && Showing(ReconcileAll(s, vs), id, BestOf(shown, vs))
  {
    if vs != [] {
      var init, v := vs[..|vs| - 1], vs[|vs| - 1];
      FoldShowsBest(s, id, ps, shown, init);
      VersionStep(ReconcileAll(s, init), id, ps, BestOf(shown, init), v);
    }
  }

  /** No version is newer than `g`, and one as new shows the same. */
  ghost predicate AtMost(g: Version, vs: seq<Version>) {
    Finished(g) && forall v | v in vs :: Finished(v) && Ms(v) <= Ms(g) && (Ms(v) == Ms(g) ==> Applied(v) == Applied(g))
  }

  /** What is shown is older than `g`, or is `g`. */
  ghost predicate UpTo(best: Option<View>, g: Version)
    requires Finished(g)
  {
    best.Some? && best.value.mirrored.Some? && best.value.mirrored.value >= Ms(g) ==> best == Some(Applied(g))
  }

  lemma BetterUpTo(best: Option<View>, v: Version, g: Version)
    requires Finished(g) && Finished(v) && Ms(v) <= Ms(g) && (Ms(v) == Ms(g) ==> Applied(v) == Applied(g))
             && UpTo(best, g)
    ensures UpTo(Better(best, v), g)
    ensures best == Some(Applied(g)) || v == g ==> Better(best, v) == Some(Applied(g))
  {
  }

  lemma {:induction false} BestIsGreatest(shown: Option<View>, vs: seq<Version>, g: Version)
    requires AtMost(g, vs) && UpTo(shown, g)
    ensures UpTo(BestOf(shown, vs), g) && (g in vs ==> BestOf(shown, vs) == Some(Applied(g)))
  {
    if vs != [] {
      var init, v := vs[..|vs| - 1], vs[|vs| - 1];
      BestIsGreatest(shown, init, g);
      BetterUpTo(BestOf(shown, init), v, g);
    }
  }

  /** Whatever the order and repetition of the versions, a clean document ends with the contents,
      place and mirrored stamp of the greatest one, and seeing any of them again changes nothing. */
  lemma LastWriterWins(s: Local, id: DocId, ps: set<Location>, shown: Option<View>, vs: seq<Version>, g: Version,
                       again: Version)
    requires Settled(s, id, ps) && PrefixFree(ps) && Versions(id, ps, vs) && Showing(s, id, shown)
    requires g in vs && AtMost(g, vs) && UpTo(shown, g) && again in vs
    ensures Shows(ReconcileAll(s, vs), id, Applied(g))
    ensures Reconciled(ReconcileAll(s, vs), again) == ReconcileAll(s, vs)
  {
    FoldShowsBest(s, id, ps, shown, vs);
    BestIsGreatest(shown, vs, g);
    VersionStep(ReconcileAll(s, vs), id, ps, Some(Applied(g)), again);
  }

  // ---- Increments against everything ----

  /** Later edits carry later stamps; a place belongs to one document for good, and no place lies
      below another. */
  ghost predicate ValidHistory(h: seq<Version>) {
    && (forall d | d in h :: Finished(d))
    && (forall i, j | 0 <= i < j < |h| :: Ms(h[i]) < Ms(h[j]))
    && (forall a, b | a in h && b in h && a.place <= b.place :: a.place == b.place && a.id == b.id)
  }

  function Except(docs: seq<Version>, id: DocId): seq<Version> {
    if docs == [] then [] else (if docs[0].id == id then [] else [docs[0]]) + Except(docs[1..], id)
  }

  /** The server's listing after a history of edits: each document's latest version, newest first. */
  function Listing(h: seq<Version>): seq<Version> {
    if h == [] then [] else [h[|h| - 1]] + Except(Listing(h[..|h| - 1]), h[|h| - 1].id)
  }

  ghost predicate NewestFirst(docs: seq<Version>) {
    forall i, j | 0 <= i < j < |docs| :: Ms(docs[i]) > Ms(docs[j])
  }

  lemma {:induction false} ExceptKeeps(docs: seq<Version>, id: DocId)
    ensures forall d :: d in Except(docs, id) <==> d in docs && d.id != id
    ensures NewestFirst(docs) ==> NewestFirst(Except(docs, id))
  {
    if docs != [] {
      ExceptKeeps(docs[1..], id);
      var rest := Except(docs[1..], id);
      if NewestFirst(docs) {
        assert forall d | d in docs[1..] :: Ms(docs[0]) > Ms(d);
        assert NewestFirst(docs[1..]);
        if docs[0].id != id {
          assert Except(docs, id) == [docs[0]] + rest;
          assert forall j | 0 <= j < |rest| :: rest[j] in rest;
        }
      }
    }
  }

  lemma ValidPrefix(h: seq<Version>)
    requires ValidHistory(h) && h != []
    ensures ValidHistory(h[..|h| - 1])
    ensures forall d | d in h[..|h| - 1] :: Ms(d) < Ms(h[|h| - 1])
  {
    var init := h[..|h| - 1];
    forall d | d in init ensures d in h && Ms(d) < Ms(h[|h| - 1]) {
      var i :| 0 <= i < |init| && init[i] == d;
      assert h[i] == d;
    }
  }

  lemma {:induction false} ListingSorted(h: seq<Version>)
    requires ValidHistory(h)
    ensures NewestFirst(Listing(h)) && forall d | d in Listing(h) :: d in h
  {
    if h != [] {
      var init, last := h[..|h| - 1], h[|h| - 1];
      ValidPrefix(h);
      ListingSorted(init);
      ExceptKeeps(Listing(init), last.id);
      var rest := Except(Listing(init), last.id);
      assert forall j | 0 <= j < |rest| :: rest[j] in rest && Ms(rest[j]) < Ms(last);
      assert Listing(h) == [last] + rest;
    }
  }

  /** What is still listed after more edits was listed before them, if it is that old. */
  lemma {:induction false} ListedBefore(h: seq<Version>, more: seq<Version>, d: Version)
    requires d in Listing(h + more) && d !in more
    ensures d in Listing(h)
    decreases |more|
  {
    if more == [] {
      assert h + more == h;
    } else {
      var init, last := more[..|more| - 1], more[|more| - 1];
      assert h + more == (h + init) + [last];
      assert (h + more)[..|h + more| - 1] == h + init;
      ExceptKeeps(Listing(h + init), last.id);
      assert d in Listing(h + init);
      ListedBefore(h, init, d);
    }
  }

  /** The version has been mirrored, or a later one of its document. */
  ghost predicate Mirrored(s: Local, d: Version) {
    exists i :: i in s.remote && s.remote[i].id == d.id && AlreadyMirrored(s, i, d)
  }

  /** Every entry is a directory on the way to some document's place, or that document's file. */
  ghost predicate Accounted(s: Local, h: seq<Version>, l: Location)
    requires l in s.names
  {
    if s.names[l] in s.remote
    then exists d :: d in h && d.id == s.remote[s.names[l]].id && d.place == l
    else exists d :: d in h && l < d.place
  }

  ghost predicate TreeAccounted(s: Local, h: seq<Version>) {
    forall l | l in s.names :: Accounted(s, h, l)
  }

  ghost predicate HomesUnique(s: Local) {
    forall i | i in s.remote :: i in s.content && OneHome(s, i)
  }

  ghost predicate OnlyPulled(s: Local, h: seq<Version>) {
    Injective(s.remote) && Numbered(s) && s.dirty == map[] && TreeAccounted(s, h) && HomesUnique(s)
  }

  ghost predicate OneHome(s: Local, i: Ino) {
    exists l :: LocationsOf(s, i) == {l}
  }

  /** At a listed document's place there is nothing, or the document's own file. */
  lemma PlaceIsFree(s: Local, h: seq<Version>, d: Version)
    requires OnlyPulled(s, h) && ValidHistory(h) && d in h && d.place in s.names
    ensures s.names[d.place] in s.remote && s.remote[s.names[d.place]].id == d.id
  {
    assert Accounted(s, h, d.place);
  }

  lemma PulledMapped(s: Local, h: seq<Version>, i: Ino, d: Version)
    requires OnlyPulled(s, h) && ValidHistory(h) && d in h && i in s.remote && s.remote[i].id == d.id
             && !AlreadyMirrored(s, i, d)
    ensures OnlyPulled(ReconcileMapped(s, i, d).0, h)
    ensures ReconcileMapped(s, i, d).0.remote == Mapped(s.remote, i, d)
    ensures ReconcileMapped(s, i, d).0.watermark == s.watermark
  {
    var l := d.place;
    if l in s.names {
      PlaceIsFree(s, h, d);
    }
    MoveSucceeds(s, i, l);
    var m := Moved(s, i, l).value;
    var t := ReconcileMapped(s, i, d).0;
    assert t == m.(content := m.content[i := d.content.value], remote := Mapped(m.remote, i, d));
    MovedStaysPulled(s, h, i, d, m, t);
  }

  /** A mapping set: the inode `i` shows version `d`. */
  function Mapped(remote: map<Ino, Mirror>, i: Ino, d: Version): map<Ino, Mirror> {
    remote[i := Mirror(d.id, d.ms)]
  }

  lemma MovedStaysPulled(s: Local, h: seq<Version>, i: Ino, d: Version, m: Local, t: Local)
    requires OnlyPulled(s, h) && d in h && i in s.remote && s.remote[i].id == d.id
    requires MovedTo(s, m, i, d.place) && d.content.Some?
    requires t == m.(content := m.content[i := d.content.value], remote := Mapped(m.remote, i, d))
    ensures OnlyPulled(t, h)
  {
    forall k | k in t.names ensures Accounted(t, h, k) && t.names[k] < t.next {
      MovedAccounted(s, h, i, d, m, t, k);
    }
    MovedHomes(s, h, i, d, m, t);
    MappedStaysInjective(s.remote, i, d);
  }

  lemma MappedStaysInjective(remote: map<Ino, Mirror>, i: Ino, d: Version)
    requires Injective(remote) && i in remote && remote[i].id == d.id
    ensures Injective(Mapped(remote, i, d))
  {
  }

  lemma MovedHomes(s: Local, h: seq<Version>, i: Ino, d: Version, m: Local, t: Local)
    requires OnlyPulled(s, h) && i in s.remote && s.remote[i].id == d.id && MovedTo(s, m, i, d.place)
    requires t.names == m.names && t.remote == Mapped(m.remote, i, d) && t.content.Keys == m.content.Keys + {i}
    ensures HomesUnique(t)
  {
    forall j | j in t.remote ensures j in t.content && OneHome(t, j) {
      assert LocationsOf(t, j) == LocationsOf(m, j);
      if j != i {
        MovedHome(s, h, i, d.place, m, j);
      }
    }
  }

  lemma MovedAccounted(s: Local, h: seq<Version>, i: Ino, d: Version, m: Local, t: Local, k: Location)
    requires OnlyPulled(s, h) && d in h && i in s.remote && s.remote[i].id == d.id && MovedTo(s, m, i, d.place)
    requires t.names == m.names && t.remote == Mapped(m.remote, i, d) && t.next == m.next && k in t.names
    ensures Accounted(t, h, k) && t.names[k] < t.next
  {
    if t.names[k] == i {
      assert k in LocationsOf(m, i);
    } else if k in s.names && t.names[k] == s.names[k] {
      assert Accounted(s, h, k);
    }
  }

  lemma MovedHome(s: Local, h: seq<Version>, i: Ino, l: Location, m: Local, j: Ino)
    requires OnlyPulled(s, h) && MovedTo(s, m, i, l) && j in s.remote && j != i
    ensures LocationsOf(m, j) == LocationsOf(s, j) && OneHome(m, j)
  {
    assert OneHome(s, j);
    var p :| LocationsOf(s, j) == {p};
    assert LocationsOf(m, j) == LocationsOf(s, j);
  }

  lemma PulledNew(s: Local, h: seq<Version>, d: Version) returns (i: Ino)
    requires OnlyPulled(s, h) && ValidHistory(h) && d in h && forall j | j in s.remote :: s.remote[j].id != d.id
    ensures OnlyPulled(ReconcileNew(s, d).0, h)
    ensures i !in s.remote && ReconcileNew(s, d).0.remote == Mapped(s.remote, i, d)
    ensures ReconcileNew(s, d).0.watermark == s.watermark
  {
    var l := d.place;
    if l in s.names {
      PlaceIsFree(s, h, d);
    }
    var g := EnsureParents(s, l);
    ParentsGrow(s, l, |l| - 1);
    i := g.next;
    NewResult(s, d);
    NewStaysPulled(s, h, d, g, ReconcileNew(s, d).0);
  }

  /** A finished version whose place is free makes a file there. */
  lemma NewResult(s: Local, d: Version)
    requires Finished(d)
    requires var g := EnsureParents(s, d.place); d.place !in g.names && g.remote == s.remote
    ensures
      var g := EnsureParents(s, d.place);
      ReconcileNew(s, d).0
      == g.(names := g.names[d.place := g.next], content := g.content[g.next := d.content.value], next := g.next + 1,
            remote := Mapped(s.remote, g.next, d))
  {
  }

  lemma NewStaysPulled(s: Local, h: seq<Version>, d: Version, g: Local, t: Local)
    requires OnlyPulled(s, h) && d in h && (forall j | j in s.remote :: s.remote[j].id != d.id)
    requires Grown(s, g, d.place) && d.place !in g.names && d.content.Some?
    requires t == g.(names := g.names[d.place := g.next], content := g.content[g.next := d.content.value],
                     next := g.next + 1,
                     remote := Mapped(s.remote, g.next, d))
    ensures OnlyPulled(t, h)
  {
    NewTreeAccounted(s, h, d, g, t);
    forall j | j in t.remote ensures j in t.content && OneHome(t, j) {
      NewHome(s, h, d, g, t, j);
    }
  }

  lemma NewTreeAccounted(s: Local, h: seq<Version>, d: Version, g: Local, t: Local)
    requires TreeAccounted(s, h) && Numbered(s) && d in h && Grown(s, g, d.place) && d.place !in g.names
    requires t.names == g.names[d.place := g.next] && t.remote == Mapped(s.remote, g.next, d) && t.next == g.next + 1
    requires Injective(s.remote) && t.dirty == s.dirty && forall j | j in s.remote :: s.remote[j].id != d.id
    ensures TreeAccounted(t, h) && Numbered(t) && Injective(t.remote)
  {
    forall k | k in t.names ensures Accounted(t, h, k) && t.names[k] < t.next {
      NewAccounted(s, h, d, g, t, k);
    }
  }

  lemma NewAccounted(s: Local, h: seq<Version>, d: Version, g: Local, t: Local, k: Location)
    requires TreeAccounted(s, h) && Numbered(s) && d in h && Grown(s, g, d.place) && d.place !in g.names
    requires t.names == g.names[d.place := g.next] && t.remote == Mapped(s.remote, g.next, d) && t.next == g.next + 1
    requires k in t.names
    ensures Accounted(t, h, k) && t.names[k] < t.next
  {
    if k != d.place && k in s.names {
      assert Accounted(s, h, k);
      assert t.names[k] == s.names[k] < s.next;
    }
  }

  lemma NewHome(s: Local, h: seq<Version>, d: Version, g: Local, t: Local, j: Ino)
    requires HomesUnique(s) && Numbered(s) && Grown(s, g, d.place) && d.place !in g.names
    requires t.names == g.names[d.place := g.next] && t.remote == Mapped(s.remote, g.next, d) && j in t.remote
    requires t.content.Keys == s.content.Keys + {g.next}
    ensures j in t.content && OneHome(t, j)
  {
    if j == g.next {
      assert forall k | k in g.names :: g.names[k] < g.next by {
        forall k | k in g.names ensures g.names[k] < g.next {
          assert k in s.names ==> g.names[k] == s.names[k] < s.next;
        }
      }
      assert LocationsOf(t, j) == {d.place};
    } else {
      assert OneHome(s, j);
      assert LocationsOf(t, j) == LocationsOf(g, j);
      SameLocations(s, g, d.place, j);
    }
  }

  lemma NowMirrored(s: Local, t: Local, i: Ino, d: Version)
    requires Finished(d) && t.remote == Mapped(s.remote, i, d)
    requires i in s.remote ==> s.remote[i].id == d.id && !AlreadyMirrored(s, i, d)
    ensures Mirrored(t, d) && forall e | Mirrored(s, e) :: Mirrored(t, e)
  {
    assert t.remote[i].id == d.id && AlreadyMirrored(t, i, d);
    forall e | Mirrored(s, e) ensures Mirrored(t, e) {
      var j :| j in s.remote && s.remote[j].id == e.id && AlreadyMirrored(s, j, e);
      assert t.remote[j].id == e.id && AlreadyMirrored(t, j, e);
    }
  }

  /** Pulling one listed document mirrors it, loses nothing mirrored before, and leaves the cache
      accounted for; one already mirrored changes nothing. */
  lemma PullOne(s: Local, h: seq<Version>, d: Version)
    requires OnlyPulled(s, h) && ValidHistory(h) && d in h
    ensures
      var t := Reconciled(s, d);
      OnlyPulled(t, h) && Mirrored(t, d) && t.watermark == s.watermark && forall e | Mirrored(s, e) :: Mirrored(t, e)
    ensures Mirrored(s, d) ==> Reconciled(s, d) == s
  {
    var existing := InoOf(s, d.id);
    if existing.Some? {
      var i := existing.value;
      if AlreadyMirrored(s, i, d) {
        assert Mirrored(s, d);
      } else {
        PulledMapped(s, h, i, d);
        NowMirrored(s, Reconciled(s, d), i, d);
      }
    } else {
      var i := PulledNew(s, h, d);
      NowMirrored(s, Reconciled(s, d), i, d);
    }
  }

  /** Everything of `before` is still mirrored in `after`. */
  ghost predicate KeepsMirrored(before: Local, after: Local) {
    forall e | Mirrored(before, e) :: Mirrored(after, e)
  }

  lemma {:induction false} PullMany(s: Local, h: seq<Version>, docs: seq<Version>)
    requires OnlyPulled(s, h) && ValidHistory(h) && forall d | d in docs :: d in h
    ensures
      var t := ReconcileAll(s, docs);
      OnlyPulled(t, h) && t.watermark == s.watermark && (forall d | d in docs :: Mirrored(t, d)) && KeepsMirrored(s, t)
  {
    if docs != [] {
      var init, d := docs[..|docs| - 1], docs[|docs| - 1];
      PullMany(s, h, init);
      var u := ReconcileAll(s, init);
      PullOne(u, h, d);
      assert KeepsMirrored(u, Reconciled(u, d));
      forall e | e in docs ensures Mirrored(Reconciled(u, d), e) {
        assert e == d || e in init;
      }
    }
  }

  /** Documents already mirrored are no-ops. */
  lemma {:induction false} PullNothing(s: Local, h: seq<Version>, docs: seq<Version>)
    requires OnlyPulled(s, h) && ValidHistory(h) && forall d | d in docs :: d in h && Mirrored(s, d)
    ensures ReconcileAll(s, docs) == s
  {
    if docs != [] {
      var init, d := docs[..|docs| - 1], docs[|docs| - 1];
      assert docs == init + [d];
      PullNothing(s, h, init);
      PullOne(s, h, d);
    }
  }

  lemma {:induction false} PullInParts(s: Local, a: seq<Version>, b: seq<Version>)
    requires Placed(a) && Placed(b) && Placed(a + b)
    ensures ReconcileAll(s, a + b) == ReconcileAll(ReconcileAll(s, a), b)
  {
    if b == [] {
      assert a + b == a;
    } else {
      var init, d := b[..|b| - 1], b[|b| - 1];
      assert (a + b)[..|a + b| - 1] == a + init;
      PullInParts(s, a, init);
    }
  }

  // ---- The watermark ----

  /** The watermark's string order is the versions' time order. */
  ghost predicate StampsAgree(h: seq<Version>) {
    (forall a | a in h :: a.stamp != "")
    && forall a, b | a in h && b in h :: StrLess(a.stamp, b.stamp) <==> Ms(a) < Ms(b)
  }

  function LastStamp(h: seq<Version>): string {
    if h == [] then "" else h[|h| - 1].stamp
  }

  /** Everything listed at or below the watermark is mirrored, and the watermark is the stamp of
      some edit, or empty. */
  ghost predicate CaughtUp(s: Local, h: seq<Version>) {
    && OnlyPulled(s, h)
    && (s.watermark == "" || exists e :: e in h && e.stamp == s.watermark)
    && forall d | d in Listing(h) && Seen(s.watermark, d) :: Mirrored(s, d)
  }

  /** The cache right after a pull of history `h`: accounted for, everything listed mirrored, and
      the watermark at the last edit. */
  ghost predicate AtPull(s: Local, h: seq<Version>) {
    OnlyPulled(s, h) && (forall d | d in Listing(h) :: Mirrored(s, d)) && s.watermark == LastStamp(h)
  }

  lemma AtPullCaughtUp(s: Local, h: seq<Version>)
    requires AtPull(s, h)
    ensures CaughtUp(s, h)
  {
    assert h != [] ==> h[|h| - 1] in h;
  }

  lemma {:induction false} NewestOfSorted(seen: string, docs: seq<Version>)
    requires NewestFirst(docs) && StampsAgree(docs) && docs != [] && StrLess(seen, docs[0].stamp)
    ensures Newest(seen, docs) == docs[0].stamp
  {
    var init, last := docs[..|docs| - 1], docs[|docs| - 1];
    if init != [] {
      assert forall d | d in init :: d in docs;
      NewestOfSorted(seen, init);
      assert docs[0] in docs && last in docs && Ms(docs[0]) > Ms(last);
    }
  }

  lemma MoreHistory(s: Local, h: seq<Version>, more: seq<Version>)
    requires OnlyPulled(s, h)
    ensures OnlyPulled(s, h + more)
  {
    forall l | l in s.names ensures Accounted(s, h + more, l) {
      assert Accounted(s, h, l);
      if s.names[l] in s.remote {
        var d :| d in h && d.id == s.remote[s.names[l]].id && d.place == l;
        assert d in h + more;
      } else {
        var d :| d in h && l < d.place;
        assert d in h + more;
      }
    }
  }

  lemma LaterEdits(h: seq<Version>, more: seq<Version>, e: Version, d: Version)
    requires ValidHistory(h + more) && e in h && d in more
    ensures Ms(e) < Ms(d)
  {
    var i :| 0 <= i < |h| && h[i] == e;
    var j :| 0 <= j < |more| && more[j] == d;
    assert (h + more)[i] == e && (h + more)[|h| + j] == d;
  }

  /** Further edits leave the cache caught up: they are stamped above the watermark. */
  lemma StaysCaughtUp(s: Local, h: seq<Version>, more: seq<Version>)
    requires CaughtUp(s, h) && ValidHistory(h + more) && StampsAgree(h + more)
    ensures CaughtUp(s, h + more)
  {
    MoreHistory(s, h, more);
    ListingSorted(h + more);
    assert s.watermark != "" ==> exists e :: e in h + more && e.stamp == s.watermark by {
      if s.watermark != "" {
        var e :| e in h && e.stamp == s.watermark;
        assert e in h + more;
      }
    }
    forall d | d in Listing(h + more) && Seen(s.watermark, d) ensures Mirrored(s, d) {
      SeenIsOld(s, h, more, d);
      ListedBefore(h, more, d);
    }
  }

  /** What is at or below the watermark is not among the later edits. */
  lemma SeenIsOld(s: Local, h: seq<Version>, more: seq<Version>, d: Version)
    requires CaughtUp(s, h) && ValidHistory(h + more) && StampsAgree(h + more)
    requires d in h + more && Seen(s.watermark, d)
    ensures d !in more
  {
    var e :| e in h && e.stamp == s.watermark;
    assert e in h + more;
    if d in more {
      LaterEdits(h, more, e, d);
    }
  }

  lemma ListingHead(h: seq<Version>)
    requires h != []
    ensures Listing(h) != [] && Listing(h)[0] == h[|h| - 1]
  {
  }

  lemma AgreeWithin(h: seq<Version>, docs: seq<Version>)
    requires StampsAgree(h) && forall d | d in docs :: d in h
    ensures StampsAgree(docs)
  {
  }

  /** Any start of the listing that holds its head, none of it seen, has the last edit's stamp as
      its newest. */
  lemma HeadIsNewest(seen: string, h: seq<Version>, k: nat)
    requires ValidHistory(h) && StampsAgree(h) && h != [] && 0 < k <= |Listing(h)|
    requires seen == "" || StrLess(seen, h[|h| - 1].stamp)
    ensures Newest(seen, Listing(h)[..k]) == LastStamp(h)
  {
    ListingSorted(h);
    ListingHead(h);
    var docs := Listing(h)[..k];
    assert forall d | d in docs :: d in Listing(h);
    AgreeWithin(h, docs);
    assert docs[0] == h[|h| - 1] && h[|h| - 1] in h;
    NewestOfSorted(seen, docs);
  }

  /** Everything an increment leaves out is mirrored already. */
  lemma SeenIsMirrored(s: Local, h: seq<Version>, j: nat)
    requires CaughtUp(s, h) && ValidHistory(h) && StampsAgree(h)
    requires Unseen(s.watermark, Listing(h)) <= j < |Listing(h)|
    ensures Mirrored(s, Listing(h)[j])
  {
    var all, k := Listing(h), Unseen(s.watermark, Listing(h));
    ListingSorted(h);
    assert Seen(s.watermark, all[k]);
    var e :| e in h && e.stamp == s.watermark;
    assert all[k] in all && all[j] in all;
    assert Ms(all[j]) <= Ms(all[k]) <= Ms(e);
  }

  /** Pulling any number of listed documents, as a pull that is cut short does, leaves the cache
      caught up. */
  lemma PullSome(s: Local, h: seq<Version>, docs: seq<Version>)
    requires CaughtUp(s, h) && ValidHistory(h) && forall d | d in docs :: d in h
    ensures Placed(docs) && CaughtUp(ReconcileAll(s, docs), h) && ReconcileAll(s, docs).watermark == s.watermark
  {
    PullMany(s, h, docs);
    var t := ReconcileAll(s, docs);
    assert KeepsMirrored(s, t);
  }

  /** The increment mirrors whatever is listed. */
  lemma IncrementMirrorsAll(s: Local, h: seq<Version>, unseen: seq<Version>)
    requires CaughtUp(s, h) && ValidHistory(h) && StampsAgree(h)
    requires unseen == Listing(h)[..Unseen(s.watermark, Listing(h))]
    ensures Placed(unseen) && OnlyPulled(ReconcileAll(s, unseen), h) && ReconcileAll(s, unseen).watermark == s.watermark
    ensures forall d | d in Listing(h) :: d in h && Mirrored(ReconcileAll(s, unseen), d)
  {
    var all := Listing(h);
    ListingSorted(h);
    PullMany(s, h, unseen);
    var t := ReconcileAll(s, unseen);
    assert KeepsMirrored(s, t);
    forall d | d in all ensures Mirrored(t, d) {
      var j :| 0 <= j < |all| && all[j] == d;
      if j < |unseen| {
        assert unseen[j] == d;
      } else {
        SeenIsMirrored(s, h, j);
      }
    }
  }

  lemma PullRest(s: Local, h: seq<Version>, unseen: seq<Version>, known: seq<Version>)
    requires ValidHistory(h) && Placed(unseen) && OnlyPulled(ReconcileAll(s, unseen), h)
    requires forall d | d in unseen + known :: d in h && Mirrored(ReconcileAll(s, unseen), d)
    ensures Placed(unseen + known) && ReconcileAll(s, unseen + known) == ReconcileAll(s, unseen)
  {
    assert forall d | d in known :: d in unseen + known;
    PullNothing(ReconcileAll(s, unseen), h, known);
    PullInParts(s, unseen, known);
  }

  /** The cache is accounted for and mirrors all of `all`. */
  ghost predicate MirrorsAll(t: Local, h: seq<Version>, all: seq<Version>) {
    OnlyPulled(t, h) && forall d | d in all :: Mirrored(t, d)
  }

  lemma IncrementAndMore(s: Local, h: seq<Version>, unseen: seq<Version>, known: seq<Version>)
    requires CaughtUp(s, h) && ValidHistory(h) && StampsAgree(h)
    requires unseen == Listing(h)[..Unseen(s.watermark, Listing(h))] && forall d | d in known :: d in Listing(h)
    ensures Placed(unseen + known) && ReconcileAll(s, unseen + known) == ReconcileAll(s, unseen)
    ensures MirrorsAll(ReconcileAll(s, unseen), h, Listing(h)) && ReconcileAll(s, unseen).watermark == s.watermark
  {
    IncrementMirrorsAll(s, h, unseen);
    assert forall d | d in unseen :: d in Listing(h);
    PullRest(s, h, unseen, known);
  }

  lemma SplitAt(docs: seq<Version>, u: nat, k: nat)
    requires u <= k <= |docs|
    ensures docs[..k] == docs[..u] + docs[u..k] && forall d | d in docs[u..k] :: d in docs
  {
  }

  /** However far beyond the increment a pull goes, it does to the cache what the increment does. */
  lemma BeyondTheIncrement(s: Local, h: seq<Version>, k: nat)
    requires CaughtUp(s, h) && ValidHistory(h) && StampsAgree(h)
    requires Unseen(s.watermark, Listing(h)) <= k <= |Listing(h)|
    ensures Placed(Listing(h))
    ensures ReconcileAll(s, Listing(h)[..k]) == ReconcileAll(s, Listing(h)[..Unseen(s.watermark, Listing(h))])
    ensures MirrorsAll(ReconcileAll(s, Listing(h)[..k]), h, Listing(h))
    ensures ReconcileAll(s, Listing(h)[..k]).watermark == s.watermark
  {
    ListingSorted(h);
    SplitAt(Listing(h), Unseen(s.watermark, Listing(h)), k);
    IncrementAndMore(s, h, Listing(h)[..Unseen(s.watermark, Listing(h))],
                     Listing(h)[Unseen(s.watermark, Listing(h))..k]);
  }

  lemma LastIsNewest(h: seq<Version>, e: Version)
    requires ValidHistory(h) && e in h && Ms(e) >= Ms(h[|h| - 1])
    ensures e == h[|h| - 1]
  {
    var i :| 0 <= i < |h| && h[i] == e;
  }

  /** Both pulls end with the watermark at the last edit. */
  lemma WatermarksMeet(s: Local, h: seq<Version>)
    requires CaughtUp(s, h) && ValidHistory(h) && StampsAgree(h) && h != []
    ensures
      var all := Listing(h);
      Newest("", all) == LastStamp(h) && Newest(s.watermark, all[..Unseen(s.watermark, all)]) == LastStamp(h)
  {
    var all, k := Listing(h), Unseen(s.watermark, Listing(h));
    ListingHead(h);
    assert all[..|all|] == all && all[0] == h[|h| - 1] && all[0] in h;
    HeadIsNewest("", h, |all|);
    if k == 0 {
      assert Seen(s.watermark, all[0]);
      var e :| e in h && e.stamp == s.watermark;
      LastIsNewest(h, e);
    } else {
      assert !Seen(s.watermark, all[0]);
      HeadIsNewest(s.watermark, h, k);
    }
  }

  lemma LastStampIsNotEmpty(h: seq<Version>)
    requires StampsAgree(h) && h != []
    ensures LastStamp(h) != ""
  {
    assert h[|h| - 1] in h;
  }

  lemma StampKeepsPull(t: Local, h: seq<Version>, stamp: string)
    requires OnlyPulled(t, h)
    ensures OnlyPulled(t.(watermark := stamp), h) && forall d | Mirrored(t, d) :: Mirrored(t.(watermark := stamp), d)
  {
    var u := t.(watermark := stamp);
    forall l | l in u.names ensures Accounted(u, h, l) {
      assert Accounted(t, h, l);
    }
    forall i | i in u.remote ensures i in u.content && OneHome(u, i) {
      assert OneHome(t, i);
      assert LocationsOf(u, i) == LocationsOf(t, i);
    }
    forall d | Mirrored(t, d) ensures Mirrored(u, d) {
      var i :| i in t.remote && t.remote[i].id == d.id && AlreadyMirrored(t, i, d);
      assert AlreadyMirrored(u, i, d);
    }
  }

  // ---- Two caches that differ in their watermarks ----

  ghost predicate SameBut(s: Local, t: Local) {
    s.(watermark := "") == t.(watermark := "")
  }

  lemma {:induction false} ParentsIgnore(s: Local, w: string, l: Location, n: nat)
    requires n <= |l|
    ensures EnsureUpTo(s.(watermark := w), l, n) == EnsureUpTo(s, l, n).(watermark := w)
  {
    if n > 0 {
      ParentsIgnore(s, w, l, n - 1);
    }
  }

  lemma MoveIgnores(s: Local, w: string, i: Ino, l: Location)
    requires l != []
    ensures
      var m, m' := Moved(s, i, l), Moved(s.(watermark := w), i, l);
      m'.Some? == m.Some? && (m.Some? ==> m'.value == m.value.(watermark := w))
  {
    var s' := s.(watermark := w);
    var g, g' := EnsureParents(s, l), EnsureParents(s', l);
    ParentsIgnore(s, w, l, |l| - 1);
    assert LocationsOf(s', i) == LocationsOf(s, i) && LocationsOf(g', i) == LocationsOf(g, i);
  }

  lemma MappedIgnores(s: Local, w: string, i: Ino, v: Version)
    requires Finished(v) && i in s.remote
    ensures ReconcileMapped(s.(watermark := w), i, v).0 == ReconcileMapped(s, i, v).0.(watermark := w)
  {
    ParentsIgnore(s, w, v.place, |v.place| - 1);
    MoveIgnores(s, w, i, v.place);
  }

  lemma MirrorIgnores(s: Local, w: string, i: Ino, v: Version)
    ensures SetMirrored(Rewrite(s.(watermark := w), i, v.content), i, v.ms)
         == SetMirrored(Rewrite(s, i, v.content), i, v.ms).(watermark := w)
  {
  }

  lemma AttachIgnores(s: Local, w: string, i: Ino, v: Version)
    ensures Attach(s.(watermark := w), i, v).0 == Attach(s, i, v).0.(watermark := w)
  {
    var t := SetRemoteId(s, i, v.id);
    assert SetRemoteId(s.(watermark := w), i, v.id) == t.(watermark := w);
    MirrorIgnores(t, w, i, v);
  }

  lemma FillIgnores(s: Local, w: string, i: Ino, v: Version)
    ensures Fill(s.(watermark := w), i, v) == Fill(s, i, v).(watermark := w)
  {
  }

  lemma PlacingIgnores(g: Local, w: string, v: Version)
    ensures AttachOrCreate(g.(watermark := w), v).0 == AttachOrCreate(g, v).0.(watermark := w)
  {
    if v.place in g.names {
      AttachIgnores(g, w, g.names[v.place], v);
    } else {
      FillIgnores(g.(names := g.names[v.place := g.next], next := g.next + 1), w, g.next, v);
    }
  }

  lemma NewIgnores(s: Local, w: string, v: Version)
    requires Finished(v)
    ensures ReconcileNew(s.(watermark := w), v).0 == ReconcileNew(s, v).0.(watermark := w)
  {
    ParentsIgnore(s, w, v.place, |v.place| - 1);
    PlacingIgnores(EnsureParents(s, v.place), w, v);
  }

  lemma FinishedIgnores(s: Local, w: string, v: Version)
    requires Injective(s.remote) && Finished(v)
    ensures Reconciled(s.(watermark := w), v) == Reconciled(s, v).(watermark := w)
  {
    assert InoOf(s.(watermark := w), v.id) == InoOf(s, v.id);
    if InoOf(s, v.id).Some? {
      MappedIgnores(s, w, InoOf(s, v.id).value, v);
    } else {
      NewIgnores(s, w, v);
    }
  }

  lemma {:induction false} PullIgnores(s: Local, w: string, h: seq<Version>, docs: seq<Version>)
    requires OnlyPulled(s, h) && ValidHistory(h) && forall d | d in docs :: d in h
    ensures Placed(docs) && ReconcileAll(s.(watermark := w), docs) == ReconcileAll(s, docs).(watermark := w)
  {
    if docs != [] {
      var init, d := docs[..|docs| - 1], docs[|docs| - 1];
      PullIgnores(s, w, h, init);
      PullMany(s, h, init);
      FinishedIgnores(ReconcileAll(s, init), w, d);
    }
  }

  lemma PullSame(s: Local, t: Local, h: seq<Version>, docs: seq<Version>)
    requires SameBut(s, t) && OnlyPulled(s, h) && ValidHistory(h) && forall d | d in docs :: d in h
    ensures Placed(docs) && SameBut(ReconcileAll(s, docs), ReconcileAll(t, docs))
  {
    assert t == s.(watermark := t.watermark);
    PullIgnores(s, t.watermark, h, docs);
  }

  // ---- A delta pull against a full pull ----

  lemma AllPulled(s: Local, h: seq<Version>)
    requires CaughtUp(s, h) && ValidHistory(h) && StampsAgree(h)
    ensures Placed(Listing(h))
    ensures AtPull(StoreWatermark(ReconcileAll(s, Listing(h)), LastStamp(h)), h)
  {
    BeyondTheIncrement(s, h, |Listing(h)|);
    assert Listing(h)[..|Listing(h)|] == Listing(h);
    var t := ReconcileAll(s, Listing(h));
    if h != [] {
      LastStampIsNotEmpty(h);
    }
    StampKeepsPull(t, h, LastStamp(h));
    assert t.(watermark := t.watermark) == t;
  }

  lemma WholePulls(s: Local, h: seq<Version>)
    requires CaughtUp(s, h) && ValidHistory(h) && StampsAgree(h)
    ensures Placed(Listing(h))
    ensures
      var all := Listing(h);
      var n := Unseen(s.watermark, all);
      var end := StoreWatermark(ReconcileAll(s, all), LastStamp(h));
      && StoreWatermark(ReconcileAll(s, all[..n]), Newest(s.watermark, all[..n])) == end
      && StoreWatermark(ReconcileAll(s, all), Newest("", all)) == end
  {
    BeyondTheIncrement(s, h, |Listing(h)|);
    assert Listing(h)[..|Listing(h)|] == Listing(h);
    if h != [] {
      WatermarksMeet(s, h);
    }
  }

  /** Two caches that have the same in them but for their watermarks still do after one pulls the
      increment and the other everything, however many pages can be listed; if all can, they are
      equal and right after a pull. */
  lemma PullsAgree(s: Local, t: Local, h: seq<Version>, served: nat)
    requires SameBut(s, t) && CaughtUp(s, h) && CaughtUp(t, h) && ValidHistory(h) && StampsAgree(h)
    ensures Placed(Listing(h))
    ensures SameBut(Delta(s, Listing(h), served), Full(t, Listing(h), served))
    ensures CaughtUp(Delta(s, Listing(h), served), h) && CaughtUp(Full(t, Listing(h), served), h)
    ensures !CutShort(|Listing(h)|, |Listing(h)|, served) ==>
              Delta(s, Listing(h), served) == Full(t, Listing(h), served) && AtPull(Full(t, Listing(h), served), h)
  {
    ListingSorted(h);
    DeltaCatchesUp(s, h, served);
    FullCatchesUp(t, h, served);
    var all := Listing(h);
    if CutShort(Unseen(s.watermark, all), |all|, served) {
      PullSame(s, t, h, Met(all, served));
    } else if CutShort(|all|, |all|, served) {
      PullSame(s, t, h, Met(all, served));
      BeyondTheIncrement(s, h, |Met(all, served)|);
      assert Met(all, served) == all[..|Met(all, served)|];
    } else {
      PullSame(s, t, h, all);
    }
  }

  lemma DeltaCatchesUp(s: Local, h: seq<Version>, served: nat)
    requires CaughtUp(s, h) && ValidHistory(h) && StampsAgree(h)
    ensures Placed(Listing(h)) && CaughtUp(Delta(s, Listing(h), served), h)
    ensures
      var all := Listing(h);
      var t := Delta(s, all, served);
      if CutShort(Unseen(s.watermark, all), |all|, served) then t == ReconcileAll(s, Met(all, served))
      else t == StoreWatermark(ReconcileAll(s, all), LastStamp(h)) && AtPull(t, h)
  {
    ListingSorted(h);
    var all := Listing(h);
    if CutShort(Unseen(s.watermark, all), |all|, served) {
      PullSome(s, h, Met(all, served));
    } else {
      WholePulls(s, h);
      AllPulled(s, h);
      AtPullCaughtUp(Delta(s, all, served), h);
    }
  }

  lemma FullCatchesUp(s: Local, h: seq<Version>, served: nat)
    requires CaughtUp(s, h) && ValidHistory(h) && StampsAgree(h)
    ensures Placed(Listing(h)) && CaughtUp(Full(s, Listing(h), served), h)
    ensures
      var all := Listing(h);
      if CutShort(|all|, |all|, served) then Full(s, all, served) == ReconcileAll(s, Met(all, served))
      else Full(s, all, served) == StoreWatermark(ReconcileAll(s, all), LastStamp(h)) && AtPull(Full(s, all, served), h)
  {
    ListingSorted(h);
    var all := Listing(h);
    if CutShort(|all|, |all|, served) {
      PullSome(s, h, Met(all, served));
    } else {
      WholePulls(s, h);
      AllPulled(s, h);
      AtPullCaughtUp(Full(s, all, served), h);
    }
  }

  // ---- Runs of edits and pulls ----

  /** An edit on the server, or a pull while `served` pages can be listed. */
  datatype Event = Edit(doc: Doc) | Pull(served: nat)

  function Decoded(docs: seq<Doc>): seq<Version> {
    if docs == [] then [] else Decoded(docs[..|docs| - 1]) + [VersionOf(docs[|docs| - 1])]
  }

  /** All edits of the run, in order. */
  function Edits(es: seq<Event>): seq<Doc> {
    if es == [] then []
    else Edits(es[..|es| - 1]) + (if es[|es| - 1].Edit? then [es[|es| - 1].doc] else [])
  }

  const EMPTY: Local := Store(map[], {}, map[], map[], {}, map[], 2, "")

  /** The cache after a run whose pulls are all incremental, or all full. */
  ghost function After(es: seq<Event>, incremental: bool): Local {
    if es == [] then EMPTY
    else
      var s, listing := After(es[..|es| - 1], incremental), Listing(Decoded(Edits(es[..|es| - 1])));
      if es[|es| - 1].Edit? || !Placed(listing) then s
      else if incremental then Delta(s, listing, es[|es| - 1].served) else Full(s, listing, es[|es| - 1].served)
  }

  /** Every edit is a finished document with a well-formed stamp, later than all before it, at a
      place no other document ever has and no other place lies below. */
  ghost predicate ValidEdits(docs: seq<Doc>) {
    ValidHistory(Decoded(docs)) && forall d | d in docs :: WellFormed(d.updatedAt)
  }

  lemma {:induction false} DecodedFrom(docs: seq<Doc>)
    ensures forall v | v in Decoded(docs) :: exists d :: d in docs && v == VersionOf(d)
  {
    if docs != [] {
      var init, last := docs[..|docs| - 1], docs[|docs| - 1];
      DecodedFrom(init);
      forall v | v in Decoded(docs) ensures exists d :: d in docs && v == VersionOf(d) {
        if v in Decoded(init) {
          var d :| d in init && v == VersionOf(d);
          assert d in docs;
        } else {
          assert last in docs;
        }
      }
    }
  }

  /** Well-formed stamps compare as strings as they do as times. */
  lemma WellFormedStampsAgree(docs: seq<Doc>)
    requires ValidEdits(docs)
    ensures StampsAgree(Decoded(docs))
  {
    var h := Decoded(docs);
    DecodedFrom(docs);
    forall a, b | a in h && b in h
      ensures a.stamp != "" && (StrLess(a.stamp, b.stamp) <==> Ms(a) < Ms(b))
    {
      var d :| d in docs && a == VersionOf(d);
      var e :| e in docs && b == VersionOf(e);
      StampOrder(d, e);
    }
  }

  lemma StampOrder(d: Doc, e: Doc)
    requires WellFormed(d.updatedAt) && WellFormed(e.updatedAt)
    ensures d.updatedAt != "" && (StrLess(d.updatedAt, e.updatedAt) <==> Ms(VersionOf(d)) < Ms(VersionOf(e)))
  {
    StringOrderIsTimeOrder(d.updatedAt, e.updatedAt);
  }

  lemma ValidInit(es: seq<Event>)
    requires es != [] && ValidEdits(Edits(es))
    ensures ValidEdits(Edits(es[..|es| - 1]))
  {
    var init, e := es[..|es| - 1], es[|es| - 1];
    if e.Edit? {
      var docs := Edits(es);
      assert docs[..|docs| - 1] == Edits(init) && docs[|docs| - 1] == e.doc;
      var h := Decoded(docs);
      assert h[..|h| - 1] == Decoded(Edits(init));
      ValidPrefix(h);
    } else {
      assert Edits(es) == Edits(init);
    }
  }

  /** The server's history after the run. */
  function History(es: seq<Event>): seq<Version> {
    Decoded(Edits(es))
  }

  lemma EditedHistory(es: seq<Event>)
    requires es != []
    ensures
      var init, e := es[..|es| - 1], es[|es| - 1];
      History(es) == History(init) + if e.Edit? then [VersionOf(e.doc)] else []
  {
    var init, e := es[..|es| - 1], es[|es| - 1];
    if e.Edit? {
      assert Edits(es)[..|Edits(es)| - 1] == Edits(init);
    } else {
      assert Edits(es) == Edits(init);
      assert History(init) + [] == History(init);
    }
  }

  /** The run ends with a pull that all pages could be listed for. */
  predicate EndsWithWholePull(es: seq<Event>) {
    es != [] && es[|es| - 1].Pull?
    && var total := |Listing(History(es))|; !CutShort(total, total, es[|es| - 1].served)
  }

  /** Incremental sync equals full resync: whatever edits the server takes, whenever the cache
      pulls and wherever its pulls are cut short, pulling increments leaves the cache that pulling
      everything would, but for the watermark, and altogether after a pull that is not cut short. Everything
      at or below either watermark is mirrored throughout. */
  lemma {:induction false} IncrementalEqualsFull(es: seq<Event>)
    requires ValidEdits(Edits(es))
    ensures SameBut(After(es, true), After(es, false))
    ensures CaughtUp(After(es, true), History(es)) && CaughtUp(After(es, false), History(es))
    ensures EndsWithWholePull(es) ==> After(es, true) == After(es, false) && AtPull(After(es, true), History(es))
  {
    if es != [] {
      var init, e := es[..|es| - 1], es[|es| - 1];
      ValidInit(es);
      IncrementalEqualsFull(init);
      EditedHistory(es);
      WellFormedStampsAgree(Edits(es));
      if e.Edit? {
        StaysCaughtUp(After(init, true), History(init), [VersionOf(e.doc)]);
        StaysCaughtUp(After(init, false), History(init), [VersionOf(e.doc)]);
      } else {
        assert History(init) + [] == History(init);
        PullsAgree(After(init, true), After(init, false), History(init), e.served);
      }
    }
  }
}
