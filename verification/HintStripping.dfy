/** What stripping and installing hint blocks does to the list of them. */
module HintStripping {
  import opened Wrappers
  import opened Strings
  import opened AgentHint
  import opened HintListing

  // ---- When an open name makes no difference ----

  /** What is left of a begin suffix behind its first character, the one in which a prefix may end. */
  const SUFFIX_TAIL := BEGIN_SUFFIX[1..]

  /** The first begin prefix ends in the first character of the suffix at `n`. */
  predicate RunsInto(rest: string, n: nat) {
    |BEGIN_PREFIX| <= n + 1 && IndexOf(rest, BEGIN_PREFIX) == Some(n + 1 - |BEGIN_PREFIX|)
  }

  /** No begin suffix follows to end the name; or prefixes run into the suffixes so that the names
      listed are the same, the name being open or not. */
  predicate Harmless(name: string, rest: string)
    decreases |rest|
  {
    match IndexOf(rest, BEGIN_SUFFIX)
    case None => true
    case Some(n) =>
      RunsInto(rest, n)
      && var more := rest[n + |BEGIN_SUFFIX|..];
         match IndexOf(more, BEGIN_SUFFIX)
         case None => false
         case Some(m) =>
           RunsInto(more, m) && SUFFIX_TAIL + more[..m] == name + rest[..n]
           && Harmless(SUFFIX_TAIL, more[m + |BEGIN_SUFFIX|..])
  }

  lemma NoSuffixNoTags(text: string)
    requires IndexOf(text, BEGIN_SUFFIX).None?
    ensures Tags(text) == []
  {
    IndexFirst(text, BEGIN_SUFFIX);
    var p := IndexOf(text, BEGIN_PREFIX);
    if p.Some? {
      IndexFromNone(text, BEGIN_SUFFIX, p.value + |BEGIN_PREFIX|);
    }
  }

  /** A prefix before the first suffix, and clear of it, is what that suffix ends. */
  lemma PrefixClear(rest: string, a: nat, n: nat, next: nat)
    requires IndexOf(rest, BEGIN_SUFFIX) == Some(n) && next == n + |BEGIN_SUFFIX| <= |rest|
    requires |BEGIN_PREFIX| <= a <= n && IndexOf(rest, BEGIN_PREFIX) == Some(a - |BEGIN_PREFIX|)
    ensures Tags(rest) == [rest[a..n]] + TagsFrom(rest, next)
  {
    BlockClear(rest, a, n);
    ScanSpan(rest, 0, a, n, next);
  }

  lemma BlockClear(rest: string, a: nat, n: nat)
    requires IndexOf(rest, BEGIN_SUFFIX) == Some(n) && n + |BEGIN_SUFFIX| <= |rest|
    requires |BEGIN_PREFIX| <= a <= n && IndexOf(rest, BEGIN_PREFIX) == Some(a - |BEGIN_PREFIX|)
    ensures BlockAt(rest, 0) == Span(a, n, n + |BEGIN_SUFFIX|)
  {
    SuffixStill(rest, a, n);
    BlockIs(rest, 0, a, n);
  }

  lemma SuffixStill(rest: string, a: nat, n: nat)
    requires IndexOf(rest, BEGIN_SUFFIX) == Some(n) && a <= n <= |rest|
    ensures IndexFrom(rest, BEGIN_SUFFIX, a) == Some(n)
  {
    IndexFirst(rest, BEGIN_SUFFIX);
    IndexFromIs(rest, BEGIN_SUFFIX, a, n);
  }

  /** A prefix can reach into a suffix by one character only, and never starts in one. */
  lemma PrefixMeets(rest: string, q: nat, n: nat)
    requires OccursAt(rest, BEGIN_PREFIX, q) && OccursAt(rest, BEGIN_SUFFIX, n)
    ensures q + |BEGIN_PREFIX| <= n + 1 || n + |BEGIN_SUFFIX| <= q
  {
    assert forall j | 0 <= j < |BEGIN_SUFFIX| :: BEGIN_SUFFIX[j] != '<';
    assert forall j | 0 <= j < |BEGIN_PREFIX| - 1 :: BEGIN_PREFIX[j] != ':';
    OccursMeans(rest, BEGIN_PREFIX, q, 0);
    OccursMeans(rest, BEGIN_SUFFIX, n, 0);
    if n <= q < n + |BEGIN_SUFFIX| {
      OccursMeans(rest, BEGIN_SUFFIX, n, q - n);
    } else if q < n < q + |BEGIN_PREFIX| {
      OccursMeans(rest, BEGIN_PREFIX, q, n - q);
    }
  }

  /** If no prefix starts before the first suffix, the suffix ends nothing. */
  lemma SuffixEndsNothing(rest: string, n: nat)
    requires IndexOf(rest, BEGIN_SUFFIX) == Some(n) && n + |BEGIN_SUFFIX| <= |rest|
    requires IndexOf(rest, BEGIN_PREFIX).Some? ==> IndexOf(rest, BEGIN_PREFIX).value >= n
    ensures Tags(rest) == TagsFrom(rest, n + |BEGIN_SUFFIX|)
  {
    IndexFirst(rest, BEGIN_SUFFIX);
    IndexFirst(rest, BEGIN_PREFIX);
    forall k | 0 <= k < n + |BEGIN_SUFFIX| ensures !OccursAt(rest, BEGIN_PREFIX, k) {
      if OccursAt(rest, BEGIN_PREFIX, k) {
        PrefixMeets(rest, k, n);
      }
    }
    ScanSkip(rest, 0, n + |BEGIN_SUFFIX|);
  }

  /** The text up to a suffix that a prefix runs into leaves the rest of the suffix open. */
  lemma LeavesTail(x: string, n: nat)
    requires n + |BEGIN_SUFFIX| == |x| && OccursAt(x, BEGIN_SUFFIX, n) && RunsInto(x, n)
    ensures Scan(x) == Listing([], Some(SUFFIX_TAIL))
  {
    IndexFromNone(x, BEGIN_SUFFIX, n + 1);
    assert x[n + 1..] == x[n..n + |BEGIN_SUFFIX|][1..];
  }

  lemma PrefixInPart(x: string, z: string, q: nat)
    requires IndexOf(x + z, BEGIN_PREFIX) == Some(q) && q + |BEGIN_PREFIX| <= |x|
    ensures IndexOf(x, BEGIN_PREFIX) == Some(q)
  {
    IndexFirst(x + z, BEGIN_PREFIX);
    forall k | 0 <= k <= q ensures OccursAt(x, BEGIN_PREFIX, k) <==> k == q {
      OccursInPart(x, z, BEGIN_PREFIX, k);
    }
    IndexFromIs(x, BEGIN_PREFIX, 0, q);
  }

  /** No suffix starts within another. */
  lemma SuffixesApart(x: string, z: string, n: nat)
    requires n + |BEGIN_SUFFIX| == |x| && OccursAt(x + z, BEGIN_SUFFIX, n)
    ensures NoStraddle(x, z, BEGIN_SUFFIX)
  {
    assert forall j | 0 < j < |BEGIN_SUFFIX| :: BEGIN_SUFFIX[j] != ':';
    forall k: nat | k < |x| < k + |BEGIN_SUFFIX| ensures !OccursAt(x + z, BEGIN_SUFFIX, k) {
      OccursMeans(x + z, BEGIN_SUFFIX, n, k - n);
      Mismatch(x + z, BEGIN_SUFFIX, k, 0);
    }
  }

  /** A prefix that runs into a suffix uses it up: what is listed is what follows the suffix, the rest
      of the suffix being the beginning of a name. */
  lemma RunningInto(rest: string, n: nat)
    requires IndexOf(rest, BEGIN_SUFFIX) == Some(n) && n + |BEGIN_SUFFIX| <= |rest| && RunsInto(rest, n)
    ensures Tags(rest) == Within(SUFFIX_TAIL, rest[n + |BEGIN_SUFFIX|..]).tags
  {
    var x, more := rest[..n + |BEGIN_SUFFIX|], rest[n + |BEGIN_SUFFIX|..];
    assert rest == x + more;
    IndexFirst(rest, BEGIN_SUFFIX);
    OccursInPart(x, more, BEGIN_SUFFIX, n);
    PrefixInPart(x, more, n + 1 - |BEGIN_PREFIX|);
    LeavesTail(x, n);
    SuffixesApart(x, more, n);
    ScanCut(x, more);
  }

  /** Scanning the rest with a name open, one suffix at a time. */
  lemma WithinIs(name: string, rest: string, n: nat, more: string)
    requires IndexOf(rest, BEGIN_SUFFIX) == Some(n) && n + |BEGIN_SUFFIX| <= |rest|
             && more == rest[n + |BEGIN_SUFFIX|..]
    ensures Within(name, rest).tags == [name + rest[..n]] + Tags(more)
  {
    ScanTail(rest, n + |BEGIN_SUFFIX|);
  }

  lemma OneMoreDiffers(a: string, ts: seq<string>)
    ensures [a] + ts != ts
  {
    assert |[a] + ts| == |ts| + 1;
  }

  /** A prefix before the first suffix that does not run into it. */
  lemma ClearListed(rest: string, q: nat, n: nat, next: nat)
    requires IndexOf(rest, BEGIN_SUFFIX) == Some(n) && next == n + |BEGIN_SUFFIX| <= |rest|
    requires IndexOf(rest, BEGIN_PREFIX) == Some(q) && q < n && !RunsInto(rest, n)
    ensures q + |BEGIN_PREFIX| <= n && Tags(rest) == [rest[q + |BEGIN_PREFIX|..n]] + TagsFrom(rest, next)
  {
    IndexFirst(rest, BEGIN_PREFIX);
    IndexFirst(rest, BEGIN_SUFFIX);
    PrefixMeets(rest, q, n);
    PrefixClear(rest, q + |BEGIN_PREFIX|, n, next);
  }

  lemma ShortSlice(text: string, a: nat, n: nat)
    requires 0 < a <= n <= |text|
    ensures |text[a..n]| < n
  {
  }

  /** What is listed of a rest whose first suffix no prefix runs into. */
  lemma ClearSuffix(rest: string, n: nat) returns (listed: Option<string>)
    requires IndexOf(rest, BEGIN_SUFFIX) == Some(n) && n + |BEGIN_SUFFIX| <= |rest| && !RunsInto(rest, n)
    ensures
      var ts := TagsFrom(rest, n + |BEGIN_SUFFIX|);
      if listed.Some? then Tags(rest) == [listed.value] + ts && |listed.value| < n else Tags(rest) == ts
  {
    var q := IndexOf(rest, BEGIN_PREFIX);
    if q.Some? && q.value < n {
      ClearListed(rest, q.value, n, n + |BEGIN_SUFFIX|);
      ShortSlice(rest, q.value + |BEGIN_PREFIX|, n);
      listed := Some(rest[q.value + |BEGIN_PREFIX|..n]);
    } else {
      SuffixEndsNothing(rest, n);
      listed := None;
    }
  }

  lemma LongerDiffers(name: string, listed: Option<string>, ts: seq<string>)
    requires listed.Some? ==> |listed.value| < |name|
    ensures [name] + ts != if listed.Some? then [listed.value] + ts else ts
  {
    OneMoreDiffers(name, ts);
    if listed.Some? {
      SameLists(name, listed.value, ts, ts);
    }
  }

  /** A suffix that no prefix runs into ends a longer name, or one more, if a name is open. */
  lemma ClearSuffixDiffers(name: string, rest: string, n: nat)
    requires IndexOf(rest, BEGIN_SUFFIX) == Some(n) && n + |BEGIN_SUFFIX| <= |rest| && !RunsInto(rest, n)
    ensures Within(name, rest).tags != Tags(rest)
  {
    var ts := TagsFrom(rest, n + |BEGIN_SUFFIX|);
    var listed := ClearSuffix(rest, n);
    LongerDiffers(name + rest[..n], listed, ts);
    assert Within(name, rest).tags == [name + rest[..n]] + ts;
  }

  lemma PrefixBySuffix(more: string, m: nat, c: nat)
    requires c == |BEGIN_PREFIX| - 1 <= m <= |more| && more[m - c..m] == BEGIN_PREFIX[..c]
    requires OccursAt(more, BEGIN_SUFFIX, m)
    ensures OccursAt(more, BEGIN_PREFIX, m - c)
  {
    OccursMeans(more, BEGIN_SUFFIX, m, 0);
    assert more[m - c..m + 1] == more[m - c..m] + [more[m]];
    assert BEGIN_PREFIX == BEGIN_PREFIX[..c] + ":";
  }

  /** A name that ends in all but the last character of a prefix does so behind a suffix's tail. */
  lemma EndsBehindTail(v: string, part: string, c: nat)
    requires v == SUFFIX_TAIL + part && c == |BEGIN_PREFIX| - 1 <= |v| && v[|v| - c..] == BEGIN_PREFIX[..c]
    ensures |part| >= c && part[|part| - c..] == BEGIN_PREFIX[..c]
  {
    assert forall j | 0 <= j < |SUFFIX_TAIL| :: SUFFIX_TAIL[j] == BEGIN_SUFFIX[j + 1] != '<';
    assert v[|v| - c..][0] == BEGIN_PREFIX[..c][0] == '<';
    assert v[|v| - c..] == part[|part| - c..];
  }

  /** If the names up to two suffixes are the same, and a prefix runs into the first, one reaches the
      second. */
  lemma ReachesToo(name: string, rest: string, n: nat, more: string, m: nat)
    requires n + |BEGIN_SUFFIX| <= |rest| && RunsInto(rest, n) && OccursAt(more, BEGIN_SUFFIX, m)
    requires SUFFIX_TAIL + more[..m] == name + rest[..n]
    ensures Contains(more, BEGIN_PREFIX) && IndexOf(more, BEGIN_PREFIX).value < m
  {
    var c, w := |BEGIN_PREFIX| - 1, name + rest[..n];
    IndexFirst(rest, BEGIN_PREFIX);
    assert rest[n - c..n] == rest[n - c..n + 1][..c];
    assert w[|w| - c..] == rest[n - c..n];
    EndsBehindTail(w, more[..m], c);
    assert more[..m][m - c..] == more[m - c..m];
    PrefixBySuffix(more, m, c);
    IndexFirst(more, BEGIN_PREFIX);
  }

  /** A name that nothing ends, and one that ends in a suffix no prefix runs into. */
  lemma SameAtOnce(name: string, rest: string)
    ensures
      match IndexOf(rest, BEGIN_SUFFIX)
      case None => Within(name, rest).tags == Tags(rest) && Harmless(name, rest)
      case Some(n) => !RunsInto(rest, n) ==> Within(name, rest).tags != Tags(rest) && !Harmless(name, rest)
  {
    var n := IndexOf(rest, BEGIN_SUFFIX);
    if n.None? {
      NoSuffixNoTags(rest);
    } else if !RunsInto(rest, n.value) {
      ClearSuffixDiffers(name, rest, n.value);
    }
  }

  /** Whether a name is open makes no difference to what is listed of the rest, exactly then. */
  lemma {:induction false} SameListingIff(name: string, rest: string)
    ensures Within(name, rest).tags == Tags(rest) <==> Harmless(name, rest)
    decreases |rest|
  {
    var n := IndexOf(rest, BEGIN_SUFFIX);
    SameAtOnce(name, rest);
    if n.Some? && RunsInto(rest, n.value) {
      var more := rest[n.value + |BEGIN_SUFFIX|..];
      var m := IndexOf(more, BEGIN_SUFFIX);
      if m.Some? {
        var last := more[m.value + |BEGIN_SUFFIX|..];
        SameListingIff(SUFFIX_TAIL, last);
        SameOnward(name, rest, n.value, more, m.value, last);
      } else {
        LastDiffers(name, rest, n.value, more);
        LastHarms(name, rest, n.value, more);
      }
    }
  }

  lemma LastDiffers(name: string, rest: string, n: nat, more: string)
    requires IndexOf(rest, BEGIN_SUFFIX) == Some(n) && n + |BEGIN_SUFFIX| <= |rest| && RunsInto(rest, n)
    requires more == rest[n + |BEGIN_SUFFIX|..] && IndexOf(more, BEGIN_SUFFIX).None?
    ensures Within(name, rest).tags != Tags(rest)
  {
    RunningInto(rest, n);
    WithinIs(name, rest, n, more);
    NothingWithin(SUFFIX_TAIL, more);
  }

  lemma NothingWithin(name: string, rest: string)
    requires IndexOf(rest, BEGIN_SUFFIX).None?
    ensures Within(name, rest).tags == []
  {
  }

  lemma LastHarms(name: string, rest: string, n: nat, more: string)
    requires IndexOf(rest, BEGIN_SUFFIX) == Some(n) && n + |BEGIN_SUFFIX| <= |rest|
    requires more == rest[n + |BEGIN_SUFFIX|..] && IndexOf(more, BEGIN_SUFFIX).None?
    ensures !Harmless(name, rest)
  {
  }

  lemma HarmlessOnward(name: string, rest: string, n: nat, more: string, m: nat, last: string)
    requires IndexOf(rest, BEGIN_SUFFIX) == Some(n) && n + |BEGIN_SUFFIX| <= |rest| && RunsInto(rest, n)
    requires more == rest[n + |BEGIN_SUFFIX|..]
    requires IndexOf(more, BEGIN_SUFFIX) == Some(m) && m + |BEGIN_SUFFIX| <= |more|
    requires last == more[m + |BEGIN_SUFFIX|..]
    ensures
      Harmless(name, rest) <==>
        SUFFIX_TAIL + more[..m] == name + rest[..n] && RunsInto(more, m) && Harmless(SUFFIX_TAIL, last)
  {
  }

  lemma SameOnward(name: string, rest: string, n: nat, more: string, m: nat, last: string)
    requires IndexOf(rest, BEGIN_SUFFIX) == Some(n) && n + |BEGIN_SUFFIX| <= |rest| && RunsInto(rest, n)
    requires more == rest[n + |BEGIN_SUFFIX|..]
    requires IndexOf(more, BEGIN_SUFFIX) == Some(m) && m + |BEGIN_SUFFIX| <= |more|
    requires last == more[m + |BEGIN_SUFFIX|..]
    requires Within(SUFFIX_TAIL, last).tags == Tags(last) <==> Harmless(SUFFIX_TAIL, last)
    ensures Within(name, rest).tags == Tags(rest) <==> Harmless(name, rest)
  {
    RunningInto(rest, n);
    WithinIs(name, rest, n, more);
    SameNames(name, rest, n, more, m, last);
    HarmlessOnward(name, rest, n, more, m, last);
  }

  /** The two listings after a prefix has run into the suffix at `n`. */
  lemma SameNames(name: string, rest: string, n: nat, more: string, m: nat, last: string)
    requires n + |BEGIN_SUFFIX| <= |rest| && RunsInto(rest, n)
    requires IndexOf(more, BEGIN_SUFFIX) == Some(m) && m + |BEGIN_SUFFIX| <= |more|
    requires last == more[m + |BEGIN_SUFFIX|..]
    ensures
      [name + rest[..n]] + Tags(more) == Within(SUFFIX_TAIL, more).tags
      <==> SUFFIX_TAIL + more[..m] == name + rest[..n] && RunsInto(more, m)
           && Within(SUFFIX_TAIL, last).tags == Tags(last)
  {
    var w, v := name + rest[..n], SUFFIX_TAIL + more[..m];
    WithinIs(SUFFIX_TAIL, more, m, last);
    SameLists(w, v, Tags(more), Tags(last));
    if RunsInto(more, m) {
      RunningInto(more, m);
    } else if w == v {
      ClearNamesDiffer(name, rest, n, more, m, last);
    }
  }

  lemma ClearAdds(more: string, q: nat, m: nat, next: nat)
    requires IndexOf(more, BEGIN_SUFFIX) == Some(m) && next == m + |BEGIN_SUFFIX| <= |more|
    requires IndexOf(more, BEGIN_PREFIX) == Some(q) && q < m && !RunsInto(more, m)
    ensures Tags(more) != Tags(more[next..])
  {
    ClearListed(more, q, m, next);
    ScanTail(more, next);
    OneMoreDiffers(more[q + |BEGIN_PREFIX|..m], TagsFrom(more, next));
  }

  lemma ClearNamesDiffer(name: string, rest: string, n: nat, more: string, m: nat, last: string)
    requires n + |BEGIN_SUFFIX| <= |rest| && RunsInto(rest, n)
    requires IndexOf(more, BEGIN_SUFFIX) == Some(m) && m + |BEGIN_SUFFIX| <= |more| && !RunsInto(more, m)
    requires last == more[m + |BEGIN_SUFFIX|..] && SUFFIX_TAIL + more[..m] == name + rest[..n]
    ensures Tags(more) != Tags(last)
  {
    IndexFirst(more, BEGIN_SUFFIX);
    ReachesToo(name, rest, n, more, m);
    ClearAdds(more, IndexOf(more, BEGIN_PREFIX).value, m, m + |BEGIN_SUFFIX|);
  }

  lemma SameLists(w: string, v: string, ws: seq<string>, vs: seq<string>)
    ensures [w] + ws == [v] + vs <==> w == v && ws == vs
  {
    assert ([w] + ws)[0] == w && ([v] + vs)[0] == v;
    assert ([w] + ws)[1..] == ws && ([v] + vs)[1..] == vs;
  }

  // ---- Stripping ----

  predicate Newlines(text: string, i: nat, j: nat)
    requires j <= |text|
  {
    forall k | i <= k < j :: text[k] == '\n'
  }

  lemma NewlinesLack(text: string, i: nat, j: nat, pattern: string)
    requires j <= |text| && Newlines(text, i, j) && pattern != "" && '\n' !in pattern
    ensures AbsentIn(text, pattern, i, j)
  {
    forall k | i <= k < j ensures !OccursAt(text, pattern, k) {
      assert pattern[0] in pattern;
      Mismatch(text, pattern, k, 0);
    }
  }

  lemma OneLiners()
    ensures '\n' !in BEGIN_PREFIX && '\n' !in BEGIN_SUFFIX
  {
  }

  /** Newlines at the end list nothing, and stay in a name that is open. */
  lemma LinesAdd(y: string, lines: string)
    requires Newlines(lines, 0, |lines|)
    ensures Scan(y + lines) == Listing(Tags(y), if Closed(y) then None else Some(Scan(y).open.value + lines))
  {
    OneLiners();
    LinesStop(y, lines, BEGIN_PREFIX);
    LinesStop(y, lines, BEGIN_SUFFIX);
    NewlinesHold(lines, BEGIN_PREFIX);
    NewlinesHold(lines, BEGIN_SUFFIX);
    ScanCut(y, lines);
  }

  lemma LinesStop(y: string, lines: string, pattern: string)
    requires Newlines(lines, 0, |lines|) && '\n' !in pattern
    ensures NoStraddle(y, lines, pattern)
  {
    forall k: nat | k < |y| < k + |pattern| ensures !OccursAt(y + lines, pattern, k) {
      if lines != "" {
        assert (y + lines)[|y|] == '\n' && pattern[|y| - k] in pattern;
        Mismatch(y + lines, pattern, k, |y| - k);
      }
    }
  }

  lemma NewlinesHold(lines: string, pattern: string)
    requires Newlines(lines, 0, |lines|) && pattern != "" && '\n' !in pattern
    ensures IndexOf(lines, pattern) == None
  {
    NewlinesLack(lines, 0, |lines|, pattern);
    IndexFromNone(lines, pattern, 0);
  }

  /** The first begin marker of the tag, with the end marker after it. */
  predicate RegionAt(text: string, tag: string, b: nat, e: nat) {
    b < e <= |text| && RegionOf(text, BeginMarker(tag), EndMarker(tag)) == Region(b, e)
  }

  /** What follows the block once the newlines after it are dropped. */
  function Rest(text: string, e: nat): string
    requires e <= |text|
  {
    text[SkipNewlines(text, e)..]
  }

  predicate StartsLine(text: string, b: nat)
    requires b < |text|
  {
    b == 0 || text[b - 1] == '\n'
  }

  /** The block does not start a line, and what follows it would, behind the angle bracket that is
      left of the block, read as a begin prefix. */
  predicate Joins(text: string, b: nat, e: nat)
    requires b < e <= |text|
  {
    !StartsLine(text, b) && OccursAt("<" + Rest(text, e), BEGIN_PREFIX, 0)
  }

  /** What stays of the text before the block, and of the block. */
  function Head(text: string, b: nat): string
    requires b < |text|
  {
    text[..HeadEnd(text, b)]
  }

  /** The name that is open where the rest follows in the stripped text: begun before the block and
      not ended, or by the angle bracket and the rest together. */
  function Carried(text: string, b: nat, e: nat): Option<string>
    requires b < e <= |text|
  {
    if Closed(Head(text, b)) && Joins(text, b, e) then Some("") else Scan(Head(text, b)).open
  }

  /** The rest, without what begins the name if it does. */
  function After(text: string, b: nat, e: nat): string
    requires b < e <= |text|
  {
    if Closed(Head(text, b)) && Joins(text, b, e) then Rest(text, e)[|BEGIN_PREFIX| - 1..] else Rest(text, e)
  }

  lemma StripCuts(text: string, tag: string, b: nat, e: nat)
    requires RegionAt(text, tag, b, e)
    ensures StripBlock(text, tag) == Head(text, b) + Rest(text, e)
    ensures IndexOf(text, BeginMarker(tag)) == Some(b) && b + |BeginMarker(tag)| <= e
  {
  }

  lemma HeadKeepsLines(text: string, b: nat)
    requires b < |text| && StartsLine(text, b)
    ensures
      var head := Head(text, b);
      |head| <= b && text[..b] == head + text[|head|..b] && Newlines(text[|head|..b], 0, b - |head|)
      && (head == "" || head[|head| - 1] == '\n')
  {
    var kept, h := TrimEnd(text[..b]), HeadEnd(text, b);
    if kept != "" {
      assert text[..b][b - 1] == '\n';
      assert text[..b][|kept|] == '\n';
    }
    forall k | 0 <= k < b - h ensures text[h..b][k] == '\n' {
      assert text[..b][h + k] == '\n';
    }
  }

  lemma HeadKeepsAngle(text: string, tag: string, b: nat)
    requires OccursAt(text, BeginMarker(tag), b) && !StartsLine(text, b)
    ensures Head(text, b) == text[..b] + "<"
  {
    HeadIs(text, b);
    TrimEndIs(text[..b], text[..b]);
    OccursMeans(text, BeginMarker(tag), b, 0);
  }

  /** The head lists what was listed before the block, and leaves a name open if that did. */
  lemma HeadLists(text: string, tag: string, b: nat, e: nat)
    requires RegionAt(text, tag, b, e)
    ensures Tags(Head(text, b)) == Tags(text[..b]) && (Closed(Head(text, b)) <==> Closed(text[..b]))
    ensures StartsLine(text, b) || Closed(text[..b])
            || Scan(Head(text, b)).open == Some(Scan(text[..b]).open.value + "<")
  {
    StripCuts(text, tag, b, e);
    if StartsLine(text, b) {
      HeadKeepsLines(text, b);
      LinesAdd(Head(text, b), text[|Head(text, b)|..b]);
    } else {
      IndexFirst(text, BeginMarker(tag));
      HeadKeepsAngle(text, tag, b);
      AngleAdds(text[..b]);
    }
  }

  lemma AngleAdds(x: string)
    ensures Scan(x + "<") == Listing(Tags(x), if Closed(x) then None else Some(Scan(x).open.value + "<"))
  {
    AngleStops(x, "<");
    IndexFromNone("<", BEGIN_PREFIX, 0);
    IndexFromNone("<", BEGIN_SUFFIX, 0);
    ScanCut(x, "<");
  }

  /** An angle bracket in an open name is part of it. */
  lemma WithinAngle(name: string, rest: string)
    ensures Within(name, "<" + rest) == Within(name + "<", rest)
  {
    Mismatch("<" + rest, BEGIN_SUFFIX, 0, 0);
    IndexSkips("<" + rest, BEGIN_SUFFIX, 0, 1);
    IndexShifts("<", rest, BEGIN_SUFFIX, 0);
    var n := IndexOf(rest, BEGIN_SUFFIX);
    if n.Some? {
      assert name + ("<" + rest)[..n.value + 1] == (name + "<") + rest[..n.value];
      ScanShift("<", rest, n.value + |BEGIN_SUFFIX|);
    } else {
      Assoc(name, "<", rest);
    }
  }

  lemma PrefixFound(rest: string)
    ensures
      match IndexOf(rest, BEGIN_SUFFIX)
      case None => BlockAt(BEGIN_PREFIX + rest, 0).Nothing? && Begun(BEGIN_PREFIX + rest, 0) == Some(rest)
      case Some(k) =>
        BlockAt(BEGIN_PREFIX + rest, 0)
        == Span(|BEGIN_PREFIX|, |BEGIN_PREFIX| + k, |BEGIN_PREFIX| + k + |BEGIN_SUFFIX|)
  {
    var text := BEGIN_PREFIX + rest;
    assert OccursAt(text, BEGIN_PREFIX, 0) && text[|BEGIN_PREFIX|..] == rest;
    IndexFromIs(text, BEGIN_PREFIX, 0, 0);
    IndexShifts(BEGIN_PREFIX, rest, BEGIN_SUFFIX, 0);
  }

  /** A begin prefix opens a name. */
  lemma PrefixOpens(text: string, rest: string)
    requires text == BEGIN_PREFIX + rest
    ensures Scan(text) == Within("", rest)
  {
    var k := IndexOf(rest, BEGIN_SUFFIX);
    PrefixFound(rest);
    if k.Some? {
      NameAcross(BEGIN_PREFIX, rest, 0, |BEGIN_PREFIX|, k.value);
      assert BEGIN_PREFIX[|BEGIN_PREFIX|..] == "";
    } else {
      ScanStep(text, 0);
      assert "" + rest == rest;
    }
  }

  /** What is read behind an angle bracket that nothing is open before. */
  lemma AngleThen(rest: string)
    ensures
      Scan("<" + rest) ==
        if OccursAt("<" + rest, BEGIN_PREFIX, 0) then Within("", rest[|BEGIN_PREFIX| - 1..]) else Scan(rest)
  {
    var text := "<" + rest;
    if OccursAt(text, BEGIN_PREFIX, 0) {
      assert text == text[0..0 + |BEGIN_PREFIX|] + rest[|BEGIN_PREFIX| - 1..];
      PrefixOpens(text, rest[|BEGIN_PREFIX| - 1..]);
    } else {
      ScanSkip(text, 0, 1);
      ScanShift("<", rest, 0);
    }
  }

  /** What a scan of the stripped text makes of it: what was listed before the block, and then the
      rest, read with the name open that is carried into it. */
  lemma StripScan(text: string, tag: string, b: nat, e: nat)
    requires RegionAt(text, tag, b, e)
    ensures Scan(StripBlock(text, tag))
            == Followed(Scan(text[..b]), Resume(Carried(text, b, e), After(text, b, e)))
  {
    StripCuts(text, tag, b, e);
    HeadLists(text, tag, b, e);
    if StartsLine(text, b) {
      HeadKeepsLines(text, b);
      OneLiners();
      LineEndStopsPattern(Head(text, b), Rest(text, e), BEGIN_PREFIX);
      LineEndStopsPattern(Head(text, b), Rest(text, e), BEGIN_SUFFIX);
      ScanCut(Head(text, b), Rest(text, e));
    } else {
      StripScanMidLine(text, tag, b, e);
    }
  }

  lemma StripScanMidLine(text: string, tag: string, b: nat, e: nat)
    requires RegionAt(text, tag, b, e) && !StartsLine(text, b)
    ensures Scan(StripBlock(text, tag))
            == Followed(Scan(text[..b]), Resume(Carried(text, b, e), After(text, b, e)))
  {
    var x, rest := text[..b], Rest(text, e);
    StripCuts(text, tag, b, e);
    HeadLists(text, tag, b, e);
    IndexFirst(text, BeginMarker(tag));
    HeadKeepsAngle(text, tag, b);
    Assoc(x, "<", rest);
    AngleStops(x, "<" + rest);
    ScanCut(x, "<" + rest);
    if Closed(x) {
      AngleThen(rest);
    } else {
      WithinAngle(Scan(x).open.value, rest);
    }
  }

  /** Nothing is listed among the newlines after a region. */
  lemma RestLists(text: string, e: nat)
    requires e <= |text|
    ensures ScanFrom(text, e) == Scan(Rest(text, e))
  {
    var t := SkipNewlines(text, e);
    OneLiners();
    ScanTail(text, t);
    NewlinesLack(text, e, t, BEGIN_PREFIX);
    ScanSkip(text, e, t);
  }

  /** What is read after the block is listed like what follows the block. */
  lemma AfterLists(text: string, b: nat, e: nat)
    requires b < e <= |text|
    ensures Tags(After(text, b, e)) == TagsFrom(text, e)
    ensures After(text, b, e) == Rest(text, e) ==> Scan(Rest(text, e)) == ScanFrom(text, e)
  {
    RestLists(text, e);
    if Closed(Head(text, b)) && Joins(text, b, e) {
      JoinedAfter(Rest(text, e));
    }
  }

  lemma JoinedAfter(rest: string)
    requires OccursAt("<" + rest, BEGIN_PREFIX, 0)
    ensures |rest| >= |BEGIN_PREFIX| - 1 && Scan(rest[|BEGIN_PREFIX| - 1..]) == Scan(rest)
  {
    var c := |BEGIN_PREFIX| - 1;
    forall k | 0 <= k < c ensures !OccursAt(rest, BEGIN_PREFIX, k) {
      OccursMeans("<" + rest, BEGIN_PREFIX, 0, k + 1);
      assert ("<" + rest)[k + 1] == rest[k] == BEGIN_PREFIX[k + 1] != '<';
      Mismatch(rest, BEGIN_PREFIX, k, 0);
    }
    ScanSkip(rest, 0, c);
    ScanTail(rest, c);
  }

  /** Stripping a block leaves listed what is listed before it and what is listed after it, exactly if
      no name is carried into the rest, or that makes no difference to it. */
  lemma StripListsIff(text: string, tag: string, b: nat, e: nat)
    requires RegionAt(text, tag, b, e)
    ensures
      Tags(StripBlock(text, tag)) == Tags(text[..b]) + TagsFrom(text, e) <==>
        match Carried(text, b, e)
        case None => true
        case Some(name) => Harmless(name, After(text, b, e))
  {
    StripScan(text, tag, b, e);
    AfterLists(text, b, e);
    var after := After(text, b, e);
    SameBehind(Tags(text[..b]), Resume(Carried(text, b, e), after).tags, Tags(after));
    if Carried(text, b, e).Some? {
      SameListingIff(Carried(text, b, e).value, after);
    }
  }

  lemma SameBehind(a: seq<string>, x: seq<string>, y: seq<string>)
    ensures a + x == a + y <==> x == y
  {
    assert (a + x)[|a|..] == x && (a + y)[|a|..] == y;
  }

  // ---- Blocks with nothing open before them ----

  /** A scan goes through the text before the tag's first marker, and from there on. */
  lemma ScanAt(text: string, tag: string, b: nat)
    requires IndexOf(text, BeginMarker(tag)) == Some(b) && b <= |text|
    ensures Scan(text) == Followed(Scan(text[..b]), Resume(Scan(text[..b]).open, text[b..]))
    ensures OccursAt(text, BeginMarker(tag), b)
  {
    IndexFirst(text, BeginMarker(tag));
    OccursMeans(text, BeginMarker(tag), b, 0);
    assert text == text[..b] + text[b..];
    AngleStops(text[..b], text[b..]);
    ScanCut(text[..b], text[b..]);
  }

  lemma ScanOn(text: string, tag: string, b: nat)
    requires IndexOf(text, BeginMarker(tag)) == Some(b) && b <= |text| && Closed(text[..b])
    ensures Scan(text) == Followed(Scan(text[..b]), ScanFrom(text, b))
  {
    ScanAt(text, tag, b);
    ScanTail(text, b);
  }

  /** The listing around a tag's begin marker before which nothing is open. */
  lemma TagsAround(text: string, tag: string, b: nat, a: nat)
    requires IndexOf(text, BeginMarker(tag)) == Some(b) && b <= |text| && Closed(text[..b])
    requires a == b + |BeginMarker(tag)|
    ensures Tags(text) == Tags(text[..b]) + [Sanitize(tag)] + TagsFrom(text, a)
  {
    ScanOn(text, tag, b);
    IndexFirst(text, BeginMarker(tag));
    MarkerIsListed(text, tag, b, a);
    Assoc(Tags(text[..b]), [Sanitize(tag)], TagsFrom(text, a));
  }

  /** Stripping a tag's block takes the tag's first listing away, with whatever is listed inside the
      block, and leaves the others, in order: exactly unless what follows joins the angle bracket that
      is left of the block, and the name so opened changes what is listed. */
  lemma StripUnlists(text: string, tag: string, b: nat, a: nat, e: nat)
    requires RegionAt(text, tag, b, e) && Closed(text[..b]) && a == b + |BeginMarker(tag)|
    ensures a <= e && Sanitize(tag) !in Tags(text[..b])
    ensures Tags(text) == Tags(text[..b]) + [Sanitize(tag)] + TagsFrom(text, a)
    ensures
      Tags(StripBlock(text, tag)) == Tags(text[..b]) + TagsFrom(text, e)
      <==> (Joins(text, b, e) ==> Harmless("", Rest(text, e)[|BEGIN_PREFIX| - 1..]))
  {
    StripCuts(text, tag, b, e);
    TagsAround(text, tag, b, a);
    NotListedBefore(text, tag, b);
    StripClosedListsIff(text, tag, b, e);
  }

  lemma StripClosedListsIff(text: string, tag: string, b: nat, e: nat)
    requires RegionAt(text, tag, b, e) && Closed(text[..b])
    ensures
      Tags(StripBlock(text, tag)) == Tags(text[..b]) + TagsFrom(text, e)
      <==> (Joins(text, b, e) ==> Harmless("", Rest(text, e)[|BEGIN_PREFIX| - 1..]))
  {
    HeadLists(text, tag, b, e);
    StripListsIff(text, tag, b, e);
  }

  /** If it does join, the text up to the next begin suffix is listed as a tag, though there was no
      marker for it, and then what follows that suffix. */
  lemma StripJoins(text: string, tag: string, b: nat, e: nat)
    requires RegionAt(text, tag, b, e) && Closed(text[..b]) && Joins(text, b, e)
    ensures Scan(StripBlock(text, tag))
            == Followed(Scan(text[..b]), Within("", Rest(text, e)[|BEGIN_PREFIX| - 1..]))
  {
    HeadLists(text, tag, b, e);
    StripScan(text, tag, b, e);
  }

  /** Stripping a block in which nothing begins keeps a text closed, or keeps it from being, unless what
      follows joins. */
  lemma StripClosedIff(text: string, tag: string, b: nat, e: nat)
    requires RegionAt(text, tag, b, e) && Closed(text[..b]) && !Joins(text, b, e)
    requires AbsentIn(text, BEGIN_PREFIX, b + |BeginMarker(tag)|, e)
    ensures Closed(StripBlock(text, tag)) <==> Closed(text)
  {
    StripCuts(text, tag, b, e);
    ClosedAround(text, tag, b, b + |BeginMarker(tag)|, e);
    StripCloses(text, tag, b, e);
  }

  lemma ClosedAround(text: string, tag: string, b: nat, a: nat, e: nat)
    requires IndexOf(text, BeginMarker(tag)) == Some(b) && a == b + |BeginMarker(tag)| <= e <= |text|
    requires Closed(text[..b]) && AbsentIn(text, BEGIN_PREFIX, a, e)
    ensures Closed(text) <==> ScanFrom(text, e).open.None?
  {
    ScanSkip(text, a, e);
    ClosedFrom(text, tag, b, a);
  }

  lemma ClosedFrom(text: string, tag: string, b: nat, a: nat)
    requires IndexOf(text, BeginMarker(tag)) == Some(b) && a == b + |BeginMarker(tag)| <= |text| && Closed(text[..b])
    ensures Scan(text).open == ScanFrom(text, a).open
  {
    ScanOn(text, tag, b);
    IndexFirst(text, BeginMarker(tag));
    MarkerIsListed(text, tag, b, a);
  }

  lemma StripCloses(text: string, tag: string, b: nat, e: nat)
    requires RegionAt(text, tag, b, e) && Closed(text[..b]) && !Joins(text, b, e)
    ensures Closed(StripBlock(text, tag)) <==> ScanFrom(text, e).open.None?
  {
    HeadLists(text, tag, b, e);
    StripScan(text, tag, b, e);
    AfterLists(text, b, e);
  }

  // ---- Blocks within an open name ----

  /** The first suffix in a tag's marker is its last part. */
  lemma FirstSuffix(text: string, tag: string, b: nat)
    requires OccursAt(text, BeginMarker(tag), b)
    ensures b <= |text| && IndexFrom(text, BEGIN_SUFFIX, b) == Some(b + |BEGIN_PREFIX| + |Sanitize(tag)|)
  {
    var name, c := ":" + Sanitize(tag), |BEGIN_PREFIX| - 1;
    MarkerParts(text, tag, b);
    assert BEGIN_PREFIX == BEGIN_PREFIX[..c] + ":";
    OccursInTwo(text, BEGIN_PREFIX[..c], ":", b);
    OccursInTwo(text, ":", Sanitize(tag), b + c);
    forall k | b <= k < b + |BEGIN_PREFIX| + |Sanitize(tag)| ensures !OccursAt(text, BEGIN_SUFFIX, k) {
      NotInMarker(text, tag, b, k, name);
    }
    IndexFromIs(text, BEGIN_SUFFIX, b, b + |BEGIN_PREFIX| + |Sanitize(tag)|);
  }

  lemma NotInMarker(text: string, tag: string, b: nat, k: nat, name: string)
    requires name == ":" + Sanitize(tag) && b <= k < b + |BEGIN_PREFIX| + |Sanitize(tag)|
    requires OccursAt(text, BEGIN_PREFIX, b) && OccursAt(text, name, b + |BEGIN_PREFIX| - 1)
    requires OccursAt(text, BEGIN_SUFFIX, b + |BEGIN_PREFIX| - 1 + |name|)
    ensures !OccursAt(text, BEGIN_SUFFIX, k)
  {
    var c := |BEGIN_PREFIX| - 1;
    if k < b + c {
      OccursMeans(text, BEGIN_PREFIX, b, k - b);
      assert forall j | 0 <= j < c :: BEGIN_PREFIX[j] != ':';
      Mismatch(text, BEGIN_SUFFIX, k, 0);
    } else {
      forall j: nat | j + 1 < |name| ensures !(name[j] == '-' && name[j + 1] == '-') {
        if j > 0 {
          NoDashes(tag, j - 1);
        }
      }
      assert forall j | 0 < j < |BEGIN_SUFFIX| :: BEGIN_SUFFIX[j] != BEGIN_SUFFIX[0];
      NotWithinName(text, name, BEGIN_SUFFIX, b + c, k);
    }
  }

  /** A marker in an open name only ends it. */
  lemma MarkerEndsName(name: string, rest: string, tag: string, c: nat)
    requires OccursAt(rest, BeginMarker(tag), 0) && c == |BeginMarker(tag)|
    ensures c <= |rest| && Within(name, rest) == Headed(name + (BEGIN_PREFIX + Sanitize(tag)), ScanFrom(rest, c))
  {
    FirstSuffix(rest, tag, 0);
    StartOfThree(rest, BEGIN_PREFIX, Sanitize(tag), BEGIN_SUFFIX);
  }

  lemma StartOfThree(text: string, x: string, y: string, z: string)
    requires OccursAt(text, x + y + z, 0)
    ensures |x + y + z| <= |text| && text[..|x| + |y|] == x + y
  {
    assert text[..|x| + |y|] == text[..|x + y + z|][..|x| + |y|];
  }

  /** A tag whose first marker stands in an open name is not listed by it: the name is, up to the end of
      the marker. Stripping the block leaves listed what is listed before it and after it, exactly if the
      open name makes no difference there. */
  lemma StripInName(text: string, tag: string, b: nat, a: nat, e: nat)
    requires RegionAt(text, tag, b, e) && !Closed(text[..b]) && a == b + |BeginMarker(tag)|
    ensures a <= e
    ensures
      var name := Scan(text[..b]).open.value + (BEGIN_PREFIX + Sanitize(tag));
      Tags(text) == Tags(text[..b]) + [name] + TagsFrom(text, a)
    ensures !Closed(Head(text, b))
    ensures
      Tags(StripBlock(text, tag)) == Tags(text[..b]) + TagsFrom(text, e)
      <==> Harmless(Scan(Head(text, b)).open.value, Rest(text, e))
  {
    StripCuts(text, tag, b, e);
    NameSwallows(text, tag, b, a);
    StripOpenListsIff(text, tag, b, e);
  }

  lemma StripOpenListsIff(text: string, tag: string, b: nat, e: nat)
    requires RegionAt(text, tag, b, e) && !Closed(text[..b])
    ensures !Closed(Head(text, b))
    ensures
      Tags(StripBlock(text, tag)) == Tags(text[..b]) + TagsFrom(text, e)
      <==> Harmless(Scan(Head(text, b)).open.value, Rest(text, e))
  {
    HeadLists(text, tag, b, e);
    StripListsIff(text, tag, b, e);
  }

  lemma NameSwallows(text: string, tag: string, b: nat, a: nat)
    requires IndexOf(text, BeginMarker(tag)) == Some(b) && !Closed(text[..b]) && a == b + |BeginMarker(tag)| <= |text|
    ensures
      var name := Scan(text[..b]).open.value + (BEGIN_PREFIX + Sanitize(tag));
      Tags(text) == Tags(text[..b]) + [name] + TagsFrom(text, a)
  {
    ScanAt(text, tag, b);
    EndedName(text, text[b..], Scan(text[..b]).open.value, tag, b, a);
    Assoc(Tags(text[..b]), [Scan(text[..b]).open.value + (BEGIN_PREFIX + Sanitize(tag))], TagsFrom(text, a));
  }

  lemma EndedName(text: string, rest: string, name: string, tag: string, b: nat, a: nat)
    requires a == b + |BeginMarker(tag)| <= |text| && OccursAt(text, BeginMarker(tag), b) && rest == text[b..]
    ensures Within(name, rest).tags == [name + (BEGIN_PREFIX + Sanitize(tag))] + TagsFrom(text, a)
  {
    OccursInTail(text, BeginMarker(tag), b);
    MarkerEndsName(name, rest, tag, a - b);
    ScanInTail(text, b, a - b);
  }

  // ---- Texts for which the list goes wrong ----

  /** A block of one tag between `x` and `z`. */
  function Amid(x: string, tag: string, z: string): string {
    x + (Block(BeginMarker(tag), "", EndMarker(tag)) + z)
  }

  lemma RegionAmid(x: string, tag: string, z: string) returns (e: nat)
    requires '\n' !in tag && IndexOf(Amid(x, tag, z), BeginMarker(tag)) == Some(|x|) && z != "" && z[0] != '\n'
    ensures RegionAt(Amid(x, tag, z), tag, |x|, e) && Rest(Amid(x, tag, z), e) == z && Amid(x, tag, z)[..|x|] == x
  {
    MarkersInline(tag);
    e := RegionBetween(x, BeginMarker(tag), EndMarker(tag), z);
  }

  lemma RegionBetween(x: string, begin: string, end: string, z: string) returns (e: nat)
    requires Inline(begin) && Inline(end) && |end| > 1 && z != "" && z[0] != '\n'
    requires IndexOf(x + (Block(begin, "", end) + z), begin) == Some(|x|)
    ensures
      var text := x + (Block(begin, "", end) + z);
      |x| < e <= |text| && RegionOf(text, begin, end) == Region(|x|, e) && Rest(text, e) == z && text[..|x|] == x
  {
    e := |x + begin| + 1 + |end|;
    AmidParts(x, begin, end, z);
    EndAmid(x + begin, end, z);
    RegionIs(x + (Block(begin, "", end) + z), begin, end, |x|, |x + begin| + 1);
    RestAfter(x + Block(begin, "", end), z, e);
  }

  lemma EndAmid(a: string, end: string, z: string)
    requires Inline(end) && |end| > 1
    ensures IndexFrom(a + ("\n" + (end + ("\n" + z))), end, |a|) == Some(|a| + 1)
  {
    IndexFromNone("\n", end, 0);
    FirstAfterParts(a, "\n", end, "\n" + z);
  }

  lemma AmidParts(x: string, begin: string, end: string, z: string)
    ensures
      var text, block := x + (Block(begin, "", end) + z), Block(begin, "", end);
      text == (x + begin) + ("\n" + (end + ("\n" + z))) && text == (x + block) + z && text[..|x|] == x
      && |x + block| == |x + begin| + 2 + |end| && (x + block)[|x + block| - 1] == '\n'
  {
  }

  lemma RestAfter(y: string, z: string, e: nat)
    requires e + 1 == |y| && y[e] == '\n' && z != "" && z[0] != '\n'
    ensures Rest(y + z, e) == z
  {
    assert (y + z)[e] == '\n' && (y + z)[|y|] != '\n';
    assert SkipNewlines(y + z, e) == |y|;
  }

  /** All but the first character of a begin marker, behind a block in the middle of a line: stripping the
      one tag leaves a begin marker of the other, which was not there and is then listed. */
  lemma StrippingCanJoin(tag: string, other: string) returns (text: string, e: nat)
    requires '\n' !in tag && '\n' !in other && '<' !in other
    ensures RegionAt(text, tag, 1, e) && Tags(text[..1]) == [] && TagsFrom(text, e) == []
    ensures StripBlock(text, tag) == "x" + BeginMarker(other) && Tags(StripBlock(text, tag)) == [Sanitize(other)]
  {
    var z := BeginMarker(other)[1..];
    text := Amid("x", tag, z);
    MarkerAfterX(tag, z);
    e := RegionAmid("x", tag, z);
    NoAngleNoTags("x");
    NoAngleInRest(other);
    NoAngleNoTags(z);
    RestLists(text, e);
    JoinsMarker(text, tag, e, other);
  }

  lemma MarkerAfterX(tag: string, z: string)
    ensures IndexOf(Amid("x", tag, z), BeginMarker(tag)) == Some(1)
  {
    var text := Amid("x", tag, z);
    assert text[1..] == Block(BeginMarker(tag), "", EndMarker(tag)) + z;
    assert OccursAt(text, BeginMarker(tag), 1);
    Mismatch(text, BeginMarker(tag), 0, 0);
    IndexFromIs(text, BeginMarker(tag), 0, 1);
  }

  lemma JoinsMarker(text: string, tag: string, e: nat, other: string)
    requires RegionAt(text, tag, 1, e) && text[..1] == "x" && Rest(text, e) == BeginMarker(other)[1..]
    ensures StripBlock(text, tag) == "x" + BeginMarker(other) && Tags(StripBlock(text, tag)) == [Sanitize(other)]
  {
    StripCuts(text, tag, 1, e);
    IndexFirst(text, BeginMarker(tag));
    HeadKeepsAngle(text, tag, 1);
    Glued("x", BeginMarker(other));
    MarkerInLine(other);
  }

  lemma Glued(x: string, m: string)
    requires m != "" && m[0] == '<'
    ensures (x + "<") + m[1..] == x + m
  {
  }

  lemma MarkerInLine(tag: string)
    ensures Tags("x" + BeginMarker(tag)) == [Sanitize(tag)]
  {
    NoAngleNoTags("x");
    AngleStops("x", BeginMarker(tag));
    ScanCut("x", BeginMarker(tag));
    MarkerAlone(tag);
  }

  lemma NoAngleNoTags(text: string)
    requires '<' !in text
    ensures Scan(text) == Listing([], None)
  {
    forall k | 0 <= k < |text| + 1 ensures !OccursAt(text, BEGIN_PREFIX, k) {
      if k < |text| {
        assert text[k] in text;
        Mismatch(text, BEGIN_PREFIX, k, 0);
      }
    }
    IndexFromNone(text, BEGIN_PREFIX, 0);
  }

  lemma NoAngleInRest(tag: string)
    requires '<' !in tag
    ensures '<' !in BeginMarker(tag)[1..]
  {
    SanitizeAdds(tag);
    var m := BeginMarker(tag);
    forall k | 1 <= k < |m| ensures m[k] != '<' {
      if |BEGIN_PREFIX| <= k < |BEGIN_PREFIX| + |Sanitize(tag)| {
        assert m[k] == Sanitize(tag)[k - |BEGIN_PREFIX|];
      }
    }
  }

  /** A begin marker by itself is listed. */
  lemma MarkerAlone(tag: string)
    ensures Scan(BeginMarker(tag)) == Listing([Sanitize(tag)], None)
  {
    var m := BeginMarker(tag);
    assert OccursAt(m, m, 0);
    MarkerIsListed(m, tag, 0, |m|);
    IndexFromFirst(m, BEGIN_PREFIX, |m|);
  }

  /** A begin prefix without a suffix, before the block: stripping the one tag has the other's name run
      together with what was open before, and the other is listed no more. */
  lemma StrippingCanSwallow(tag: string, other: string) returns (text: string, b: nat, e: nat)
    requires '\n' !in tag
    ensures RegionAt(text, tag, b, e) && Tags(text[..b]) == [] && TagsFrom(text, e) == [Sanitize(other)]
    ensures Tags(StripBlock(text, tag)) == ["a\n" + (BEGIN_PREFIX + Sanitize(other))]
  {
    var x, m := BEGIN_PREFIX + "a\n", BeginMarker(other);
    text, b := Amid(x, tag, m), |x|;
    MarkerAfterLine(x, tag, m);
    e := RegionAmid(x, tag, m);
    SwallowsMarker(text, tag, b, e, other);
    OpenLine();
    RestLists(text, e);
    MarkerAlone(other);
  }

  /** A marker on one line does not start in a line that is shorter, but after it. */
  lemma MarkerAfterLine(x: string, tag: string, z: string)
    requires '\n' !in tag && 0 < |x| < |BeginMarker(tag)| && x[|x| - 1] == '\n'
    ensures IndexOf(Amid(x, tag, z), BeginMarker(tag)) == Some(|x|)
  {
    var end := "\n" + (EndMarker(tag) + ("\n" + z));
    MarkersInline(tag);
    IndexFromNone(x, BeginMarker(tag), 0);
    FirstAfterLines(x, BeginMarker(tag), end, 0);
    assert Amid(x, tag, z) == x + (BeginMarker(tag) + end);
  }

  lemma OpenLine()
    ensures Scan(BEGIN_PREFIX + "a\n") == Listing([], Some("a\n"))
  {
    IndexFromNone("a\n", BEGIN_SUFFIX, 0);
    PrefixOpens(BEGIN_PREFIX + "a\n", "a\n");
    assert "" + "a\n" == "a\n";
  }

  lemma HeadIsLine(text: string, b: nat)
    requires 1 < b < |text| && text[b - 1] == '\n' && text[b - 2] != '\n'
    ensures Head(text, b) == text[..b] && StartsLine(text, b)
  {
    var x := text[..b];
    assert x[..b - 1][b - 2] != '\n';
    TrimEndIs(x, x[..b - 1]);
  }

  lemma SwallowsMarker(text: string, tag: string, b: nat, e: nat, other: string)
    requires RegionAt(text, tag, b, e) && text[..b] == BEGIN_PREFIX + "a\n" && Rest(text, e) == BeginMarker(other)
    ensures Tags(StripBlock(text, tag)) == ["a\n" + (BEGIN_PREFIX + Sanitize(other))]
  {
    var x, m := text[..b], BeginMarker(other);
    OpenLine();
    assert x[b - 1] == '\n' && x[b - 2] == 'a';
    HeadIsLine(text, b);
    StripScan(text, tag, b, e);
    assert OccursAt(m, m, 0);
    MarkerEndsName("a\n", m, other, |m|);
    NothingAtEnd(m);
  }

  lemma NothingAtEnd(text: string)
    ensures ScanFrom(text, |text|) == Listing([], None)
  {
    IndexFromFirst(text, BEGIN_PREFIX, |text|);
  }

  /** All but the last character of a begin prefix. */
  const CUT_PREFIX := BEGIN_PREFIX[..|BEGIN_PREFIX| - 1]

  function Echoed(tail: string, cut: string, suffix: string): string {
    (tail + cut) + (suffix + (cut + (suffix + "")))
  }

  lemma EchoedParts(tail: string, cut: string, suffix: string)
    ensures
      var more, rest, n := cut + (suffix + ""), Echoed(tail, cut, suffix), |tail + cut|;
      && more == rest[n + |suffix|..] && more[|cut| + |suffix|..] == ""
      && tail + more[..|cut|] == "" + rest[..n]
  {
  }

  lemma NothingHarmless(name: string)
    ensures Harmless(name, "")
  {
    IndexFromNone("", BEGIN_SUFFIX, 0);
  }

  /** Prefixes that run into suffixes can make an open name harmless although suffixes follow. */
  lemma HarmlessEcho() returns (rest: string)
    ensures Contains(rest, BEGIN_SUFFIX) && Harmless("", rest)
  {
    rest := Echoed(SUFFIX_TAIL, CUT_PREFIX, BEGIN_SUFFIX);
    NoMarks();
    EchoedParts(SUFFIX_TAIL, CUT_PREFIX, BEGIN_SUFFIX);
    EchoAt(SUFFIX_TAIL, SUFFIX_TAIL + CUT_PREFIX, CUT_PREFIX + (BEGIN_SUFFIX + ""));
    EchoAt("", CUT_PREFIX, "");
    NothingHarmless(SUFFIX_TAIL);
    HarmlessOnward("", rest, |SUFFIX_TAIL + CUT_PREFIX|, CUT_PREFIX + (BEGIN_SUFFIX + ""), |CUT_PREFIX|, "");
  }

  lemma NoMarks()
    ensures '<' !in SUFFIX_TAIL && ':' !in SUFFIX_TAIL && ':' !in CUT_PREFIX && BEGIN_PREFIX == CUT_PREFIX + ":"
  {
  }

  lemma OccursBetween(x: string, pattern: string, z: string)
    ensures OccursAt(x + (pattern + z), pattern, |x|)
  {
    assert (x + (pattern + z))[|x|..|x| + |pattern|] == pattern;
  }

  lemma EchoAt(before: string, part: string, rest: string)
    requires '<' !in before && ':' !in before && part == before + CUT_PREFIX
    ensures IndexOf(part + (BEGIN_SUFFIX + rest), BEGIN_SUFFIX) == Some(|part|)
    ensures RunsInto(part + (BEGIN_SUFFIX + rest), |part|)
  {
    var text := part + (BEGIN_SUFFIX + rest);
    NoMarks();
    OccursBetween(part, BEGIN_SUFFIX, rest);
    FirstAfter(part, BEGIN_SUFFIX, text, |part|);
    Assoc(before, CUT_PREFIX, BEGIN_SUFFIX + rest);
    OccursBetween(before, CUT_PREFIX, BEGIN_SUFFIX + rest);
    OccursInTwo(text, CUT_PREFIX, ":", |before|);
    assert text[|part|] == ':';
    FirstAfter(before, BEGIN_PREFIX, text, |before|);
  }

  /** A pattern is not met in a part that does not have its first character. */
  lemma FirstAfter(part: string, pattern: string, text: string, n: nat)
    requires pattern != "" && part <= text && pattern[0] !in part && n == |part| && OccursAt(text, pattern, n)
    ensures IndexOf(text, pattern) == Some(n)
  {
    forall k | 0 <= k < n ensures !OccursAt(text, pattern, k) {
      assert text[k] == part[k];
      Mismatch(text, pattern, k, 0);
    }
    IndexFromIs(text, pattern, 0, n);
  }

  // ---- Installing and listing ----

  lemma NoPrefixNoTags(text: string)
    requires !Contains(text, BEGIN_PREFIX)
    ensures Scan(text) == Listing([], None)
  {
  }

  lemma LacksTogether(x: string, z: string)
    requires !Contains(x, BEGIN_PREFIX) && !Contains(z, BEGIN_PREFIX) && NoStraddle(x, z, BEGIN_PREFIX)
    ensures !Contains(x + z, BEGIN_PREFIX)
  {
    IndexBeyond(x, z, BEGIN_PREFIX, 0);
    IndexShifts(x, z, BEGIN_PREFIX, 0);
  }

  /** The dashes of a begin prefix are at its third and fourth character; an end marker has dashes
      together in its prefix and in its suffix only, and there the rest differs. */
  lemma NoBeginInEnd(tag: string)
    ensures !Contains(EndMarker(tag), BEGIN_PREFIX)
  {
    var s, e := Sanitize(tag), EndMarker(tag);
    forall k | 0 <= k < |e| + 1 ensures !OccursAt(e, BEGIN_PREFIX, k) {
      if k + |BEGIN_PREFIX| <= |e| {
        NoBeginAt(tag, k);
      }
    }
    IndexFromNone(e, BEGIN_PREFIX, 0);
  }

  lemma NoBeginAt(tag: string, k: nat)
    requires k + |BEGIN_PREFIX| <= |EndMarker(tag)|
    ensures !OccursAt(EndMarker(tag), BEGIN_PREFIX, k)
  {
    var s, e := Sanitize(tag), EndMarker(tag);
    var n := |END_PREFIX| + |s|;
    if k == 0 {
      Mismatch(e, BEGIN_PREFIX, k, 5);
    } else if k + 2 < |END_PREFIX| {
      Mismatch(e, BEGIN_PREFIX, k, if e[k + 2] != '-' then 2 else 3);
    } else if k + 3 < n {
      NoDashes(tag, k + 2 - |END_PREFIX|);
      assert e[k + 2] == s[k + 2 - |END_PREFIX|] && e[k + 3] == s[k + 3 - |END_PREFIX|];
      Mismatch(e, BEGIN_PREFIX, k, if e[k + 2] != '-' then 2 else 3);
    } else if k + 3 == n {
      assert e[n] == END_SUFFIX[0];
      Mismatch(e, BEGIN_PREFIX, k, 3);
    } else {
      assert e[k + 2] == END_SUFFIX[k + 2 - n];
      Mismatch(e, BEGIN_PREFIX, k, 2);
    }
  }

  /** A body free of begin prefixes. */
  predicate PlainBody(body: string) {
    (body == "" || body[|body| - 1] == '\n') && !Contains("\n" + body, BEGIN_PREFIX)
  }

  lemma RestOfBlock(tag: string, body: string)
    requires PlainBody(body)
    ensures !Contains(("\n" + body) + (EndMarker(tag) + "\n"), BEGIN_PREFIX)
  {
    NoBeginInEnd(tag);
    OneLiners();
    NotInLines(EndMarker(tag), "\n", BEGIN_PREFIX, 0);
    LineEndStopsPattern("\n" + body, EndMarker(tag) + "\n", BEGIN_PREFIX);
    LacksTogether("\n" + body, EndMarker(tag) + "\n");
  }

  /** A block lists its tag. */
  lemma BlockLists(tag: string, body: string)
    requires PlainBody(body)
    ensures Scan(Block(BeginMarker(tag), body, EndMarker(tag))) == Listing([Sanitize(tag)], None)
  {
    var begin, rest := BeginMarker(tag), ("\n" + body) + (EndMarker(tag) + "\n");
    BlockParts(begin, body, EndMarker(tag));
    RestOfBlock(tag, body);
    MarkerBefore(tag, begin + rest, rest);
  }

  lemma MarkerBefore(tag: string, text: string, rest: string)
    requires text == BeginMarker(tag) + rest && !Contains(rest, BEGIN_PREFIX)
    ensures Scan(text) == Listing([Sanitize(tag)], None)
  {
    assert OccursAt(text, BeginMarker(tag), 0);
    MarkerIsListed(text, tag, 0, |BeginMarker(tag)|);
    ScanShift(BeginMarker(tag), rest, 0);
    NoPrefixNoTags(rest);
  }

  /** What is listed when a block is put after lines. */
  lemma LinesThenBlock(a: string, tag: string, block: string)
    requires Closed(a) && Scan(block) == Listing([Sanitize(tag)], None) && block != "" && block[0] == '<'
    ensures Scan(a + block) == Listing(Tags(a) + [Sanitize(tag)], None)
  {
    AngleStops(a, block);
    ScanCut(a, block);
  }

  /** Lines before a block list what they list without their trailing newlines. */
  lemma AheadLists(kept: string)
    requires Closed(kept)
    ensures Scan(Ahead(kept)) == Scan(kept) && (kept != "" ==> Ahead(kept)[|kept| + 1] == '\n')
  {
    LinesAdd(kept, "\n\n");
  }

  /** A block of a tag put after a closed text that does not have its marker stands alone there. */
  lemma AppendedAlone(kept: string, tag: string, body: string)
    requires '\n' !in tag && BodyOf(EndMarker(tag), body) && Closed(kept) && !Contains(kept, BeginMarker(tag))
    ensures
      var a, out := Ahead(kept), Appended(kept, Block(BeginMarker(tag), body, EndMarker(tag)));
      |a| < |out| - 1 && RegionAt(out, tag, |a|, |out| - 1) && !Joins(out, |a|, |out| - 1)
      && Closed(out[..|a|])
  {
    var a, block := Ahead(kept), Block(BeginMarker(tag), body, EndMarker(tag));
    AheadLists(kept);
    MarkersInline(tag);
    if kept != "" {
      NotInLines(kept, "\n\n", BeginMarker(tag), 0);
    }
    RegionOfBlock(a, BeginMarker(tag), body, EndMarker(tag));
    assert (a + block)[..|a|] == a;
  }

  lemma AppendLists(kept: string, tag: string, body: string)
    requires PlainBody(body) && Closed(kept)
    ensures Scan(Appended(kept, Block(BeginMarker(tag), body, EndMarker(tag))))
            == Listing(Tags(kept) + [Sanitize(tag)], None)
  {
    AheadLists(kept);
    BlockLists(tag, body);
    LinesThenBlock(Ahead(kept), tag, Block(BeginMarker(tag), body, EndMarker(tag)));
  }

  /** Trailing newlines list nothing. */
  lemma TrimmedLists(text: string)
    ensures Tags(TrimEnd(text)) == Tags(text) && (Closed(TrimEnd(text)) <==> Closed(text))
  {
    var kept := TrimEnd(text);
    assert text == kept + text[|kept|..];
    LinesAdd(kept, text[|kept|..]);
  }

  lemma NormalisedLists(text: string)
    ensures Tags(TrimTrailingBlankLines(text)) == Tags(text)
  {
    TrimmedLists(text);
    LinesAdd(TrimEnd(text), "\n");
    NothingAtEnd("");
  }

  /** A block put where a name is open has its tag run together with the name. */
  lemma OpenThenBlock(a: string, tag: string, block: string)
    requires !Closed(a) && block != "" && block[0] == '<' && OccursAt(block, BeginMarker(tag), 0)
    ensures Tags(a + block) != Tags(a) + [Sanitize(tag)]
  {
    var name := Scan(a).open.value;
    AngleStops(a, block);
    ScanCut(a, block);
    MarkerEndsName(name, block, tag, |BeginMarker(tag)|);
    SameBehind(Tags(a), Within(name, block).tags, [Sanitize(tag)]);
    assert Within(name, block).tags[0] != [Sanitize(tag)][0];
  }

  lemma AppendSwallowed(kept: string, tag: string, body: string)
    requires !Closed(kept)
    ensures Tags(Appended(kept, Block(BeginMarker(tag), body, EndMarker(tag)))) != Tags(kept) + [Sanitize(tag)]
  {
    var block := Block(BeginMarker(tag), body, EndMarker(tag));
    NothingAtEnd("");
    LinesAdd(kept, "\n\n");
    BlockParts(BeginMarker(tag), body, EndMarker(tag));
    OpenThenBlock(Ahead(kept), tag, block);
  }

  /** Installing a block lists its tag last, after the tags that are listed without it, exactly if no
      name is left open without it; the file is then closed, with the block standing alone in it. */
  lemma InstallLists(text: string, tag: string, body: string)
    requires '\n' !in tag && PlainBody(body) && BodyOf(EndMarker(tag), body)
    requires !Contains(StripBlock(text, tag), BeginMarker(tag))
    ensures
      var out := Installed(text, tag, Block(BeginMarker(tag), body, EndMarker(tag)));
      Tags(out) == Tags(StripBlock(text, tag)) + [Sanitize(tag)] <==> Closed(StripBlock(text, tag))
    ensures
      var out := Installed(text, tag, Block(BeginMarker(tag), body, EndMarker(tag)));
      var a := |Ahead(TrimEnd(StripBlock(text, tag)))|;
      Closed(StripBlock(text, tag)) ==>
        && Closed(out) && a < |out| - 1 && RegionAt(out, tag, a, |out| - 1) && Closed(out[..a])
        && !Joins(out, a, |out| - 1)
  {
    var kept := TrimEnd(StripBlock(text, tag));
    TrimmedLists(StripBlock(text, tag));
    TrimmedLacks(StripBlock(text, tag), BeginMarker(tag));
    if Closed(kept) {
      AppendLists(kept, tag, body);
      AppendedAlone(kept, tag, body);
    } else {
      AppendSwallowed(kept, tag, body);
    }
  }

  /** Removing what was installed lists what was listed before. */
  lemma RemoveRelists(text: string, tag: string, body: string)
    requires '\n' !in tag && BodyOf(EndMarker(tag), body) && !Contains(text, BeginMarker(tag))
    ensures Tags(Removed(Installed(text, tag, Block(BeginMarker(tag), body, EndMarker(tag))), tag)) == Tags(text)
  {
    RemoveUndoesInstall(text, tag, body);
    NormalisedLists(text);
  }
}
