/** Where a search result's chunk lies in the local file: exactly, or up to white space. */
module Grep {
  import opened Wrappers
  import opened Strings

  /** The Unicode White_Space characters. */
  predicate IsSpace(c: char) {
    var n := c as int;
    0x09 <= n <= 0x0D || n == 0x20 || n == 0x85 || n == 0xA0 || n == 0x1680 || 0x2000 <= n <= 0x200A
    || n == 0x2028 || n == 0x2029 || n == 0x202F || n == 0x205F || n == 0x3000
  }

  // ---- The normal form ----

  /** Length of the run of other characters at the start. */
  function WordEnd(s: string): (n: nat)
    ensures n <= |s| && (forall k | 0 <= k < n :: !IsSpace(s[k])) && (n < |s| ==> IsSpace(s[n]))
  {
    if s == "" || IsSpace(s[0]) then 0 else 1 + WordEnd(s[1..])
  }

  /** The pieces between runs of white space. */
  function Words(s: string): seq<string>
    decreases |s|
  {
    if s == "" then []
    else if IsSpace(s[0]) then Words(s[1..])
    else [s[..WordEnd(s)]] + Words(s[WordEnd(s)..])
  }

  function Spaced(words: seq<string>): string {
    if words == [] then "" else if |words| == 1 then words[0] else words[0] + " " + Spaced(words[1..])
  }

  /** The words with one space between. */
  function Norm(s: string): string {
    Spaced(Words(s))
  }

  // ---- Normal forms of prefixes ----

  /** What one more character does to the words. */
  function AddToWords(words: seq<string>, afterSpace: bool, c: char): seq<string> {
    if IsSpace(c) then words
    else if words == [] || afterSpace then words + [[c]]
    else words[..|words| - 1] + [words[|words| - 1] + [c]]
  }

  predicate AfterSpace(s: string) {
    s != "" && IsSpace(s[|s| - 1])
  }

  lemma {:induction false} WordEndAt(s: string, n: nat)
    requires n <= |s| && (forall k | 0 <= k < n :: !IsSpace(s[k])) && (n < |s| ==> IsSpace(s[n]))
    ensures WordEnd(s) == n
  {
    if n > 0 {
      WordEndAt(s[1..], n - 1);
    }
  }

  lemma NoWords(s: string)
    ensures Words(s) == [] ==> forall k | 0 <= k < |s| :: IsSpace(s[k])
    decreases |s|
  {
    if s != "" && IsSpace(s[0]) {
      NoWords(s[1..]);
    }
  }

  lemma {:induction false} OneMoreInWords(s: string, c: char)
    ensures Words(s + [c]) == AddToWords(Words(s), AfterSpace(s), c)
    decreases |s|
  {
    var t := s + [c];
    if s == "" {
      assert t == [c] && t[1..] == "" && t[..1] == t;
      if !IsSpace(c) {
        WordEndAt(t, 1);
      }
    } else if IsSpace(s[0]) {
      assert t[1..] == s[1..] + [c];
      OneMoreInWords(s[1..], c);
      NoWords(s[1..]);
    } else {
      OneMoreAfterWord(s, c);
    }
  }

  lemma FirstWord(s: string, n: nat)
    requires 0 < n <= |s| && (forall k | 0 <= k < n :: !IsSpace(s[k])) && (n < |s| ==> IsSpace(s[n]))
    ensures Words(s) == [s[..n]] + Words(s[n..])
  {
    WordEndAt(s, n);
  }

  lemma OneWord(s: string)
    requires s != "" && forall k | 0 <= k < |s| :: !IsSpace(s[k])
    ensures Words(s) == [s]
  {
    FirstWord(s, |s|);
    assert s[..|s|] == s && s[|s|..] == "";
  }

  lemma NoWordsIn(s: string)
    requires |s| == 1 && IsSpace(s[0])
    ensures Words(s) == []
  {
    assert s[1..] == "";
  }

  /** The character after a whole word starts white space or makes the word longer. */
  lemma OneMoreAtWordEnd(s: string, c: char)
    requires s != "" && WordEnd(s) == |s|
    ensures Words(s) == [s] && Words(s + [c]) == if IsSpace(c) then [s] else [s + [c]]
  {
    var t := s + [c];
    OneWord(s);
    if IsSpace(c) {
      FirstWord(t, |s|);
      assert t[..|s|] == s;
      NoWordsIn(t[|s|..]);
    } else {
      OneWord(t);
    }
  }

  lemma {:induction false} OneMoreAfterWord(s: string, c: char)
    requires s != "" && !IsSpace(s[0])
    ensures Words(s + [c]) == AddToWords(Words(s), AfterSpace(s), c)
    decreases |s|, 0
  {
    var t, n := s + [c], WordEnd(s);
    if n < |s| {
      FirstWord(s, n);
      FirstWord(t, n);
      assert t[..n] == s[..n] && t[n..] == s[n..] + [c];
      OneMoreInWords(s[n..], c);
      NoWords(s[n..]);
      AddAfter(s[..n], Words(s[n..]), AfterSpace(s[n..]), c);
    } else {
      OneMoreAtWordEnd(s, c);
    }
  }

  lemma AddAfter(word: string, words: seq<string>, afterSpace: bool, c: char)
    requires words == [] ==> IsSpace(c) || afterSpace
    ensures [word] + AddToWords(words, afterSpace, c) == AddToWords([word] + words, afterSpace, c)
  {
  }

  lemma {:induction false} SpacedMore(words: seq<string>, w: string)
    ensures Spaced(words + [w]) == if words == [] then w else Spaced(words) + " " + w
  {
    if words != [] {
      assert (words + [w])[1..] == words[1..] + [w];
      SpacedMore(words[1..], w);
    }
  }

  lemma {:induction false} WordsNotEmpty(s: string)
    ensures forall w | w in Words(s) :: w != ""
    decreases |s|
  {
    if s != "" {
      WordsNotEmpty(if IsSpace(s[0]) then s[1..] else s[WordEnd(s)..]);
    }
  }

  lemma {:induction false} SpacedEmpty(words: seq<string>)
    requires forall w | w in words :: w != ""
    ensures Spaced(words) == "" <==> words == []
  {
    assert words != [] ==> words[0] in words;
  }

  /** A normal form grows by the character, after a space if white space came before it. */
  function Grow(norm: string, afterSpace: bool, c: char): string {
    if IsSpace(c) then norm else if norm != "" && afterSpace then norm + " " + [c] else norm + [c]
  }

  lemma OneMore(s: string, c: char)
    ensures Norm(s + [c]) == Grow(Norm(s), AfterSpace(s), c)
  {
    var words := Words(s);
    OneMoreInWords(s, c);
    WordsNotEmpty(s);
    SpacedEmpty(words);
    if !IsSpace(c) && words != [] {
      SpacedMore(words, [c]);
      var init, last := words[..|words| - 1], words[|words| - 1];
      assert words == init + [last];
      SpacedMore(init, last);
      SpacedMore(init, last + [c]);
    }
  }

  lemma OneMoreAt(s: string, i: nat)
    requires i < |s|
    ensures Norm(s[..i + 1]) == Grow(Norm(s[..i]), AfterSpace(s[..i]), s[i])
  {
    assert s[..i + 1] == s[..i] + [s[i]];
    OneMore(s[..i], s[i]);
  }

  /** The normal form of a prefix is a prefix of the normal form. */
  lemma {:induction false} PrefixNorm(s: string, i: nat)
    requires i <= |s|
    ensures Norm(s[..i]) <= Norm(s)
    decreases |s| - i
  {
    if i == |s| {
      assert s[..i] == s;
    } else {
      PrefixNorm(s, i + 1);
      OneMoreAt(s, i);
    }
  }

  // ---- Positions ----

  /** Where the character at `i` goes in the normal form. */
  function PlaceOf(s: string, i: nat): nat
    requires i < |s|
  {
    |Norm(s[..i])| + if Norm(s[..i]) != "" && AfterSpace(s[..i]) then 1 else 0
  }

  lemma GrowTogether(whole: string, from: nat, afterSpace: bool, c: char)
    requires from < |whole|
    ensures from < |Grow(whole, afterSpace, c)|
            && Grow(whole[from..], afterSpace, c) == Grow(whole, afterSpace, c)[from..]
  {
  }

  lemma NormOfOne(s: string, a: nat)
    requires a < |s| && !IsSpace(s[a])
    ensures PlaceOf(s, a) < |Norm(s[..a + 1])| && Norm(s[a..a + 1]) == Norm(s[..a + 1])[PlaceOf(s, a)..]
  {
    OneMoreAt(s, a);
    OneMore("", s[a]);
    assert s[a..a + 1] == "" + [s[a]];
  }

  lemma OneMoreBetween(s: string, a: nat, b: nat)
    requires a + 1 < b <= |s|
    ensures Norm(s[a..b]) == Grow(Norm(s[a..b - 1]), AfterSpace(s[..b - 1]), s[b - 1])
  {
    var part := s[a..b - 1];
    assert s[a..b] == part + [s[b - 1]];
    assert part[|part| - 1] == s[b - 2] == s[..b - 1][b - 2];
    OneMore(part, s[b - 1]);
  }

  lemma NormOneFurther(s: string, from: nat, a: nat, b: nat)
    requires a + 1 < b <= |s| && from < |Norm(s[..b - 1])| && Norm(s[a..b - 1]) == Norm(s[..b - 1])[from..]
    ensures from < |Norm(s[..b])| && Norm(s[a..b]) == Norm(s[..b])[from..]
  {
    OneMoreAt(s, b - 1);
    OneMoreBetween(s, a, b);
    GrowTogether(Norm(s[..b - 1]), from, AfterSpace(s[..b - 1]), s[b - 1]);
  }

  /** The text from a character that is not white space on normalises to what the normal form
      holds from that character's place on. */
  lemma {:induction false} NormBetween(s: string, a: nat, b: nat)
    requires a < b <= |s| && !IsSpace(s[a])
    ensures PlaceOf(s, a) < |Norm(s[..b])| && Norm(s[a..b]) == Norm(s[..b])[PlaceOf(s, a)..]
  {
    if b == a + 1 {
      NormOfOne(s, a);
    } else {
      NormBetween(s, a, b - 1);
      NormOneFurther(s, PlaceOf(s, a), a, b);
    }
  }

  /** Between the characters placed at the ends of a match lies text that normalises to the match. */
  lemma MatchMapsBack(s: string, a: nat, b: nat, pattern: string, at: nat)
    requires a <= b < |s| && !IsSpace(s[a]) && !IsSpace(s[b]) && OccursAt(Norm(s), pattern, at) && pattern != ""
    requires PlaceOf(s, a) == at && PlaceOf(s, b) == at + |pattern| - 1
    ensures Norm(s[a..b + 1]) == pattern
  {
    OneMoreAt(s, b);
    PrefixNorm(s, b + 1);
    NormBetween(s, a, b + 1);
    assert Norm(s[..b + 1]) == Norm(s)[..at + |pattern|];
  }

  /** A normal form neither starts nor ends with white space. */
  lemma {:induction false} NormEnds(s: string)
    ensures Norm(s) != "" ==> !IsSpace(Norm(s)[0]) && !IsSpace(Norm(s)[|Norm(s)| - 1])
    decreases |s|
  {
    if s != "" {
      var init := s[..|s| - 1];
      NormEnds(init);
      OneMoreAt(s, |s| - 1);
      assert s[..|s|] == s;
    }
  }

  // ---- Lines ----

  function Newlines(s: string): nat {
    if s == "" then 0 else Newlines(s[..|s| - 1]) + if s[|s| - 1] == '\n' then 1 else 0
  }

  /** The line, counted from one, of the character at `i`. */
  function LineOf(s: string, i: nat): nat
    requires i <= |s|
  {
    Newlines(s[..i]) + 1
  }

  lemma {:induction false} LinesRise(s: string, a: nat, b: nat)
    requires a <= b <= |s|
    ensures 1 <= LineOf(s, a) <= LineOf(s, b) <= LineOf(s, |s|)
    decreases |s| - a
  {
    if a < b {
      LinesRise(s, a + 1, b);
      assert s[..a + 1][..a] == s[..a];
    } else if b < |s| {
      LinesRise(s, a + 1, b + 1);
      assert s[..a + 1][..a] == s[..a];
    }
  }

  // ---- The search ----

  /** The chunk is found, as it stands or in normal form. */
  predicate Findable(file: string, chunk: string) {
    chunk != "" && (IndexOf(file, chunk).Some? || (Norm(chunk) != "" && IndexOf(Norm(file), Norm(chunk)).Some?))
  }

  /** `a` and `b` are where the chunk starts and ends: its first exact occurrence, or else the text
      that is the first to normalise as it does. */
  predicate Spans(file: string, chunk: string, a: nat, b: nat)
    requires chunk != ""
  {
    && a <= b < |file|
    && match IndexOf(file, chunk)
       case Some(at) => a == at && b == at + |chunk| - 1
       case None =>
         && Norm(file[a..b + 1]) == Norm(chunk) && !IsSpace(file[a]) && !IsSpace(file[b])
         && IndexOf(Norm(file), Norm(chunk)) == Some(PlaceOf(file, a))
  }

  /** `line_range_in_file`. */
  method LineRange(file: string, chunk: string) returns (r: Option<(nat, nat)>)
    ensures r.Some? <==> Findable(file, chunk)
    ensures r.Some? ==> exists a, b :: Spans(file, chunk, a, b) && r.value == (LineOf(file, a), LineOf(file, b))
    ensures r.Some? ==> 1 <= r.value.0 <= r.value.1 <= LineOf(file, |file|)
  {
    if chunk == "" {
      return None;
    }
    var exact := IndexOf(file, chunk);
    if exact.Some? {
      var a, b := exact.value, exact.value + |chunk| - 1;
      LinesRise(file, a, b);
      assert Spans(file, chunk, a, b);
      return Some((LineOf(file, a), LineOf(file, b)));
    }
    var pattern := Norm(chunk);
    if pattern == "" {
      return None;
    }
    var at := IndexOf(Norm(file), pattern);
    if at.None? {
      return None;
    }
    NormEnds(chunk);
    IndexFirst(Norm(file), pattern);
    var a, b := Locate(file, pattern, at.value);
    assert Spans(file, chunk, a, b);
    LinesRise(file, a, b);
    r := Some((LineOf(file, a), LineOf(file, b)));
  }

  /** The scan: counts through the normal form without building it, until both ends are met. */
  method Locate(file: string, pattern: string, at: nat) returns (a: nat, b: nat)
    requires pattern != "" && OccursAt(Norm(file), pattern, at)
    requires !IsSpace(pattern[0]) && !IsSpace(pattern[|pattern| - 1])
    ensures a <= b < |file| && !IsSpace(file[a]) && !IsSpace(file[b])
    ensures PlaceOf(file, a) == at && Norm(file[a..b + 1]) == pattern
  {
    var targetEnd := at + |pattern| - 1;
    var origStart: Option<nat>, origEnd: Option<nat> := None, None;
    var normIdx, needSeparator := 0, false;
    assert file[..0] == "";
    for i := 0 to |file|
      invariant normIdx == NormLength(file, i) && needSeparator == (normIdx > 0 && AfterSpace(file[..i]))
      invariant origEnd.None? && normIdx <= targetEnd
      invariant if origStart.None? then normIdx <= at else Placed(file, origStart.value, i, at)
    {
      OneStep(file, i);
      if IsSpace(file[i]) {
        if normIdx > 0 {
          needSeparator := true;
        }
        continue;
      }
      SeparatorIsNoEnd(file, pattern, at, i);
      if needSeparator {
        normIdx := normIdx + 1;
        needSeparator := false;
      }
      if normIdx == at && origStart.None? {
        origStart := Some(i);
      }
      if normIdx == targetEnd {
        origEnd := Some(i);
        break;
      }
      normIdx := normIdx + 1;
    }
    assert file[..|file|] == file;
    a, b := origStart.value, origEnd.value;
    MatchMapsBack(file, a, b, pattern, at);
  }

  function NormLength(file: string, i: nat): nat
    requires i <= |file|
  {
    |Norm(file[..i])|
  }

  /** How a character changes the length scanned, and where it is placed. */
  lemma OneStep(file: string, i: nat)
    requires i < |file|
    ensures AfterSpace(file[..i + 1]) == IsSpace(file[i])
    ensures NormLength(file, i + 1) == if IsSpace(file[i]) then NormLength(file, i) else PlaceOf(file, i) + 1
    ensures PlaceOf(file, i) == NormLength(file, i) + if NormLength(file, i) > 0 && AfterSpace(file[..i]) then 1 else 0
  {
    OneMoreAt(file, i);
  }

  /** A character before `i`, not white space, whose place is `at`. */
  predicate Placed(file: string, k: nat, i: nat, at: nat) {
    k < i <= |file| && !IsSpace(file[k]) && PlaceOf(file, k) == at
  }

  /** A separator in the normal form is neither end of the match. */
  lemma SeparatorIsNoEnd(file: string, pattern: string, at: nat, i: nat)
    requires i < |file| && !IsSpace(file[i]) && pattern != "" && OccursAt(Norm(file), pattern, at)
    requires !IsSpace(pattern[0]) && !IsSpace(pattern[|pattern| - 1])
    ensures PlaceOf(file, i) == NormLength(file, i) + 1 ==>
              NormLength(file, i) != at && NormLength(file, i) != at + |pattern| - 1
  {
    OneMoreAt(file, i);
    PrefixNorm(file, i + 1);
    var n := |Norm(file[..i])|;
    assert PlaceOf(file, i) == n + 1 ==> Norm(file)[n] == ' ';
    assert Norm(file)[at] == pattern[0] && Norm(file)[at + |pattern| - 1] == pattern[|pattern| - 1];
  }
}
