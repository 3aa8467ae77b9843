/** Searching, splitting and joining strings. */
module Strings {
  import opened Wrappers

  /** First index whose character is one of `stops`. */
  function Find(s: string, stops: string): (r: Option<nat>)
    ensures r.Some? ==> r.value < |s| && s[r.value] in stops
  {
    if s == "" then None
    else if s[0] in stops then Some(0)
    else
      match Find(s[1..], stops)
      case None => None
      case Some(i) => Some(i + 1)
  }

  /** The pieces of `s` between separators; one more than there are separators. */
  function Split(s: string, sep: char): (r: seq<string>)
    ensures |r| >= 1
    decreases |s|
  {
    match Find(s, [sep])
    case None => [s]
    case Some(i) => [s[..i]] + Split(s[i + 1..], sep)
  }

  lemma {:induction false} FindFirst(s: string, stops: string, i: nat)
    requires i < |s| && s[i] in stops && forall k | 0 <= k < i :: s[k] !in stops
    ensures Find(s, stops) == Some(i)
  {
    if i > 0 {
      FindFirst(s[1..], stops, i - 1);
    }
  }

  lemma {:induction false} FindNothing(s: string, stops: string)
    requires forall k | 0 <= k < |s| :: s[k] !in stops
    ensures Find(s, stops) == None
  {
    if s != "" {
      FindNothing(s[1..], stops);
    }
  }

  lemma SplitAt(a: string, rest: string, sep: char)
    requires sep !in a
    ensures Split(a + [sep] + rest, sep) == [a] + Split(rest, sep)
  {
    var whole := a + [sep] + rest;
    FindFirst(whole, [sep], |a|);
    assert whole[..|a|] == a && whole[|a| + 1..] == rest;
  }

  lemma SplitWhole(a: string, sep: char)
    requires sep !in a
    ensures Split(a, sep) == [a]
  {
    FindNothing(a, [sep]);
  }

  lemma Assoc<T>(a: seq<T>, b: seq<T>, c: seq<T>)
    ensures a + (b + c) == (a + b) + c
  {
  }

  lemma SliceShifts<T>(x: seq<T>, z: seq<T>, i: nat, j: nat)
    requires i <= j <= |z|
    ensures (x + z)[|x| + i..|x| + j] == z[i..j]
  {
  }

  lemma SliceAcross<T>(x: seq<T>, z: seq<T>, i: nat, j: nat)
    requires i <= |x| && j <= |z|
    ensures (x + z)[i..|x| + j] == x[i..] + z[..j]
  {
  }

  // ---- Substrings ----

  predicate OccursAt(text: string, pattern: string, i: nat) {
    i + |pattern| <= |text| && text[i..i + |pattern|] == pattern
  }

  /** The first place where `pattern` occurs, `rest` characters before the end or later. */
  function Search(text: string, pattern: string, rest: nat): (r: Option<nat>)
    requires rest <= |text|
    ensures r.Some? ==> |text| - rest <= r.value <= r.value + |pattern| <= |text|
  {
    if OccursAt(text, pattern, |text| - rest) then Some(|text| - rest)
    else if rest == 0 then None
    else Search(text, pattern, rest - 1)
  }

  /** The first place from `from` on where `pattern` occurs. */
  function IndexFrom(text: string, pattern: string, from: nat): (r: Option<nat>)
    requires from <= |text|
    ensures r.Some? ==> from <= r.value <= r.value + |pattern| <= |text|
  {
    Search(text, pattern, |text| - from)
  }

  function IndexOf(text: string, pattern: string): (r: Option<nat>)
    ensures r.Some? ==> r.value + |pattern| <= |text|
  {
    IndexFrom(text, pattern, 0)
  }

  predicate Contains(text: string, pattern: string) {
    IndexOf(text, pattern).Some?
  }

  /** Nothing occurs at the places from `from` up to `to`. */
  predicate AbsentIn(text: string, pattern: string, from: nat, to: nat) {
    forall k | from <= k < to :: !OccursAt(text, pattern, k)
  }

  /** What is found is an occurrence, and nothing occurs before it, or anywhere if nothing is found. */
  lemma {:induction false} IndexFromFirst(text: string, pattern: string, from: nat)
    requires from <= |text|
    ensures
      match IndexFrom(text, pattern, from)
      case None => AbsentIn(text, pattern, from, |text| + 1)
      case Some(i) => OccursAt(text, pattern, i) && AbsentIn(text, pattern, from, i)
    decreases |text| - from
  {
    if !OccursAt(text, pattern, from) && from < |text| {
      IndexFromFirst(text, pattern, from + 1);
    }
  }

  lemma IndexFirst(text: string, pattern: string)
    ensures
      match IndexOf(text, pattern)
      case None => AbsentIn(text, pattern, 0, |text| + 1)
      case Some(i) => OccursAt(text, pattern, i) && AbsentIn(text, pattern, 0, i)
  {
    IndexFromFirst(text, pattern, 0);
  }

  lemma IndexFromIs(text: string, pattern: string, from: nat, i: nat)
    requires from <= i && OccursAt(text, pattern, i) && AbsentIn(text, pattern, from, i)
    ensures IndexFrom(text, pattern, from) == Some(i)
  {
    IndexFromFirst(text, pattern, from);
  }

  lemma IndexFromNone(text: string, pattern: string, from: nat)
    requires from <= |text| && AbsentIn(text, pattern, from, |text| + 1)
    ensures IndexFrom(text, pattern, from) == None
  {
    IndexFromFirst(text, pattern, from);
  }

  /** A search may skip places where nothing occurs. */
  lemma {:induction false} IndexSkips(text: string, pattern: string, from: nat, to: nat)
    requires from <= to <= |text| && AbsentIn(text, pattern, from, to)
    ensures IndexFrom(text, pattern, from) == IndexFrom(text, pattern, to)
    decreases |text| - from
  {
    if from < to {
      IndexSkips(text, pattern, from + 1, to);
    }
  }

  lemma OccursMeans(text: string, pattern: string, i: nat, j: nat)
    requires OccursAt(text, pattern, i) && j < |pattern|
    ensures text[i + j] == pattern[j]
  {
    assert text[i..i + |pattern|][j] == text[i + j];
  }

  lemma Mismatch(text: string, pattern: string, i: nat, j: nat)
    requires j < |pattern| && i + j < |text| && text[i + j] != pattern[j]
    ensures !OccursAt(text, pattern, i)
  {
    if OccursAt(text, pattern, i) {
      OccursMeans(text, pattern, i, j);
    }
  }

  /** An occurrence in a concatenation that lies in one part is an occurrence in that part. */
  lemma OccursInPart(x: string, z: string, pattern: string, k: nat)
    ensures k + |pattern| <= |x| ==> (OccursAt(x + z, pattern, k) <==> OccursAt(x, pattern, k))
    ensures k >= |x| ==> (OccursAt(x + z, pattern, k) <==> OccursAt(z, pattern, k - |x|))
  {
    if k + |pattern| <= |x| {
      assert (x + z)[k..k + |pattern|] == x[k..k + |pattern|];
    } else if k >= |x| && k + |pattern| <= |x + z| {
      assert (x + z)[k..k + |pattern|] == z[k - |x|..k - |x| + |pattern|];
    }
  }

  /** What is found in a text is found in any longer one. */
  lemma IndexInLonger(x: string, z: string, pattern: string, from: nat)
    requires from <= |x| && IndexFrom(x, pattern, from).Some?
    ensures IndexFrom(x + z, pattern, from) == IndexFrom(x, pattern, from)
  {
    var i := IndexFrom(x, pattern, from).value;
    IndexFromFirst(x, pattern, from);
    forall k | from <= k <= i ensures OccursAt(x + z, pattern, k) <==> k == i {
      OccursInPart(x, z, pattern, k);
    }
    IndexFromIs(x + z, pattern, from, i);
  }

  /** No occurrence of the pattern starts in `x` and ends in `z`. */
  predicate NoStraddle(x: string, z: string, pattern: string) {
    forall k: nat | k < |x| < k + |pattern| :: !OccursAt(x + z, pattern, k)
  }

  /** What is not found before a cut is first found after it. */
  lemma IndexBeyond(x: string, z: string, pattern: string, from: nat)
    requires from <= |x| && IndexFrom(x, pattern, from).None? && NoStraddle(x, z, pattern)
    ensures IndexFrom(x + z, pattern, from) == IndexFrom(x + z, pattern, |x|)
  {
    IndexFromFirst(x, pattern, from);
    forall k | from <= k < |x| ensures !OccursAt(x + z, pattern, k) {
      OccursInPart(x, z, pattern, k);
    }
    IndexSkips(x + z, pattern, from, |x|);
  }

  /** Searching after a cut is searching the part after it. */
  lemma {:induction false} IndexShifts(x: string, z: string, pattern: string, from: nat)
    requires from <= |z|
    ensures IndexFrom(x + z, pattern, |x| + from)
         == match IndexFrom(z, pattern, from) case None => None case Some(i) => Some(|x| + i)
    decreases |z| - from
  {
    OccursInPart(x, z, pattern, |x| + from);
    if from < |z| {
      IndexShifts(x, z, pattern, from + 1);
    }
  }

  lemma SearchGoesOn(x: string, z: string, pattern: string, from: nat)
    requires from <= |x| && IndexFrom(x, pattern, from).None? && NoStraddle(x, z, pattern)
    ensures IndexFrom(x + z, pattern, from)
         == match IndexOf(z, pattern) case None => None case Some(k) => Some(|x| + k)
  {
    IndexBeyond(x, z, pattern, from);
    IndexShifts(x, z, pattern, 0);
  }

  lemma OccursInTail(text: string, pattern: string, i: nat)
    requires OccursAt(text, pattern, i)
    ensures OccursAt(text[i..], pattern, 0)
  {
    assert text[i..][0..0 + |pattern|] == text[i..i + |pattern|];
  }

  /** A pattern without newlines does not reach over the end of a line. */
  lemma LineEndStopsPattern(x: string, z: string, pattern: string)
    requires '\n' !in pattern && (x == "" || x[|x| - 1] == '\n')
    ensures NoStraddle(x, z, pattern)
  {
    forall k: nat | k < |x| < k + |pattern| ensures !OccursAt(x + z, pattern, k) {
      if k + |pattern| <= |x + z| {
        assert (x + z)[|x| - 1] == '\n' && pattern[|x| - 1 - k] in pattern;
        Mismatch(x + z, pattern, k, |x| - 1 - k);
      }
    }
  }

  /** A pattern without newlines that is not in `a` is not in `a` with newlines added. */
  lemma NotInLines(a: string, lines: string, pattern: string, from: nat)
    requires pattern != "" && '\n' !in pattern && forall k | 0 <= k < |lines| :: lines[k] == '\n'
    requires from <= |a| && IndexFrom(a, pattern, from).None?
    ensures IndexFrom(a + lines, pattern, from).None?
  {
    IndexFromFirst(a, pattern, from);
    forall k | from <= k < |a + lines| + 1 ensures !OccursAt(a + lines, pattern, k) {
      OccursInPart(a, lines, pattern, k);
      if |a| < k + |pattern| <= |a + lines| {
        assert (a + lines)[k + |pattern| - 1] == '\n' && pattern[|pattern| - 1] in pattern;
        Mismatch(a + lines, pattern, k, |pattern| - 1);
      }
    }
    IndexFromNone(a + lines, pattern, from);
  }

  lemma NotInPrefix(x: string, z: string, pattern: string)
    requires !Contains(x + z, pattern)
    ensures !Contains(x, pattern)
  {
    IndexFirst(x + z, pattern);
    forall k | 0 <= k < |x| + 1 ensures !OccursAt(x, pattern, k) {
      OccursInPart(x, z, pattern, k);
    }
    IndexFromNone(x, pattern, 0);
  }

  // ---- Path strings ----

  predicate ValidPart(p: string) {
    p != "" && '/' !in p
  }

  predicate ValidParts(parts: seq<string>) {
    forall p | p in parts :: ValidPart(p)
  }

  /** `/`-separated, with a leading slash; the root is a lone slash. */
  function Render(parts: seq<string>): string {
    "/" + Joined(parts)
  }

  function Joined(parts: seq<string>): string {
    if parts == [] then "" else if |parts| == 1 then parts[0] else parts[0] + "/" + Joined(parts[1..])
  }

  function NonEmpty(parts: seq<string>): seq<string> {
    if parts == [] then [] else (if parts[0] == "" then [] else [parts[0]]) + NonEmpty(parts[1..])
  }

  /** The components of a path: what lies between slashes, empty pieces removed. */
  function Components(path: string): seq<string> {
    NonEmpty(Split(path, '/'))
  }

  lemma {:induction false} SplitJoined(parts: seq<string>)
    requires ValidParts(parts)
    ensures NonEmpty(Split(Joined(parts), '/')) == parts
  {
    if parts == [] {
      SplitWhole("", '/');
      assert NonEmpty([""]) == NonEmpty([""][1..]);
    } else {
      assert ValidPart(parts[0]);
      if |parts| == 1 {
        SplitWhole(parts[0], '/');
      } else {
        assert ValidParts(parts[1..]);
        SplitJoined(parts[1..]);
        assert Joined(parts) == parts[0] + ['/'] + Joined(parts[1..]);
        SplitAt(parts[0], Joined(parts[1..]), '/');
      }
    }
  }

  /** Rendering valid components and taking the components again gives them back. */
  lemma ComponentsOfRender(parts: seq<string>)
    requires ValidParts(parts)
    ensures Components(Render(parts)) == parts
  {
    SplitAt("", Joined(parts), '/');
    assert Render(parts) == "" + ['/'] + Joined(parts);
    SplitJoined(parts);
    assert Components(Render(parts)) == NonEmpty([""] + Split(Joined(parts), '/'));
  }
}
