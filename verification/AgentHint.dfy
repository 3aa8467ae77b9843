/** Delimited hint blocks in agent instruction files: installing, removing, listing. */
module AgentHint {
  import opened Wrappers
  import opened Strings

  const BEGIN_PREFIX := "<!-- >>> smfs:"
  const BEGIN_SUFFIX := ":begin >>> -->"
  const END_PREFIX := "<!-- <<< smfs:"
  const END_SUFFIX := ":end <<< -->"

  /** HTML comments cannot hold `--`. */
  function Sanitize(tag: string): string {
    if |tag| < 2 then tag
    else if tag[0] == '-' && tag[1] == '-' then "__" + Sanitize(tag[2..])
    else [tag[0]] + Sanitize(tag[1..])
  }

  function BeginMarker(tag: string): string {
    BEGIN_PREFIX + Sanitize(tag) + BEGIN_SUFFIX
  }

  function EndMarker(tag: string): string {
    END_PREFIX + Sanitize(tag) + END_SUFFIX
  }

  /** A block between markers; the body is whole lines. */
  function Block(begin: string, body: string, end: string): string {
    begin + "\n" + body + end + "\n"
  }

  // ---- Trailing and leading newlines ----

  function TrimEnd(s: string): (r: string)
    ensures r <= s && (r != "" ==> r[|r| - 1] != '\n') && forall k | |r| <= k < |s| :: s[k] == '\n'
  {
    if s != "" && s[|s| - 1] == '\n' then TrimEnd(s[..|s| - 1]) else s
  }

  function TrimTrailingBlankLines(s: string): string {
    if TrimEnd(s) == "" then "" else TrimEnd(s) + "\n"
  }

  function SkipNewlines(text: string, i: nat): (r: nat)
    requires i <= |text|
    ensures i <= r <= |text| && (forall k | i <= k < r :: text[k] == '\n') && (r < |text| ==> text[r] != '\n')
    decreases |text| - i
  {
    if i < |text| && text[i] == '\n' then SkipNewlines(text, i + 1) else i
  }

  lemma TrimEndIs(s: string, r: string)
    requires r <= s && (r != "" ==> r[|r| - 1] != '\n') && forall k | |r| <= k < |s| :: s[k] == '\n'
    ensures TrimEnd(s) == r
  {
    var t := TrimEnd(s);
    assert |t| <= |r|;
    assert |r| <= |t|;
  }

  // ---- Stripping ----

  datatype Region = Nowhere | Region(start: nat, end: nat)

  /** From the first begin marker to just after the first end marker that follows it. */
  function RegionOf(text: string, begin: string, end: string): (r: Region)
    ensures r.Region? ==> r.start + |begin| + |end| <= r.end <= |text| && IndexOf(text, begin) == Some(r.start)
  {
    var b := IndexOf(text, begin);
    if b.None? then Nowhere
    else
      var e := IndexFrom(text, end, b.value + |begin|);
      if e.None? then Nowhere else Region(b.value, e.value + |end|)
  }

  /** What stays before the block: without its blank lines, and one character more if anything. */
  function HeadEnd(text: string, b: nat): (h: nat)
    requires b < |text|
    ensures h <= |text|
  {
    var h := |TrimEnd(text[..b])|;
    if h > 0 then h + 1 else 0
  }

  function Strip(text: string, begin: string, end: string): string
    requires begin != ""
  {
    match RegionOf(text, begin, end)
    case Nowhere => text
    case Region(b, e) => text[..HeadEnd(text, b)] + text[SkipNewlines(text, e)..]
  }

  /** `strip_block`. */
  function StripBlock(text: string, tag: string): string {
    Strip(text, BeginMarker(tag), EndMarker(tag))
  }

  /** What `write_block` leaves in the file. */
  function Installed(text: string, tag: string, block: string): string {
    Appended(TrimEnd(StripBlock(text, tag)), block)
  }

  function Appended(kept: string, block: string): string {
    Ahead(kept) + block
  }

  function Ahead(kept: string): string {
    if kept == "" then "" else kept + "\n\n"
  }

  /** What `remove_block` leaves in the file. */
  function Removed(text: string, tag: string): string {
    TrimTrailingBlankLines(StripBlock(text, tag))
  }

  // ---- Installing and removing ----

  /** Nonempty, on one line. */
  predicate Inline(marker: string) {
    marker != "" && '\n' !in marker
  }

  lemma {:induction false} SanitizeAdds(tag: string)
    ensures forall c | c in Sanitize(tag) :: c in tag || c == '_'
    decreases |tag|
  {
    if |tag| >= 2 {
      SanitizeAdds(if tag[0] == '-' && tag[1] == '-' then tag[2..] else tag[1..]);
    }
  }

  lemma MarkersInline(tag: string)
    requires '\n' !in tag
    ensures Inline(BeginMarker(tag)) && Inline(EndMarker(tag))
  {
    SanitizeAdds(tag);
  }

  /** A marker not found from `from` on in lines is first met after them. */
  lemma FirstAfterLines(a: string, marker: string, rest: string, from: nat)
    requires Inline(marker) && from <= |a| && (a == "" || a[|a| - 1] == '\n') && IndexFrom(a, marker, from).None?
    ensures IndexFrom(a + (marker + rest), marker, from) == Some(|a|)
  {
    LineEndStopsPattern(a, marker + rest, marker);
    IndexBeyond(a, marker + rest, marker, from);
    IndexShifts(a, marker + rest, marker, 0);
    assert OccursAt(marker + rest, marker, 0);
  }

  /** The body is whole lines that do not hold the end marker. */
  predicate BodyOf(end: string, body: string) {
    (body == "" || body[|body| - 1] == '\n') && !Contains("\n" + body, end)
  }

  /** Searching past a part that holds nothing finds the marker after it. */
  lemma FirstAfterParts(a: string, lines: string, marker: string, rest: string)
    requires Inline(marker) && lines != "" && lines[|lines| - 1] == '\n' && !Contains(lines, marker)
    ensures IndexFrom(a + (lines + (marker + rest)), marker, |a|) == Some(|a| + |lines|)
  {
    var inner := lines + (marker + rest);
    FirstAfterLines(lines, marker, rest, 0);
    IndexShifts(a, inner, marker, 0);
  }

  lemma RegionIs(text: string, begin: string, end: string, b: nat, e: nat)
    requires IndexOf(text, begin) == Some(b) && b + |begin| <= |text| && IndexFrom(text, end, b + |begin|) == Some(e)
    ensures RegionOf(text, begin, end) == Region(b, e + |end|)
  {
  }

  lemma RegionOfParts(a: string, begin: string, lines: string, end: string)
    requires Inline(begin) && Inline(end) && (a == "" || a[|a| - 1] == '\n') && !Contains(a, begin)
    requires lines != "" && lines[|lines| - 1] == '\n' && !Contains(lines, end)
    ensures RegionOf(a + (begin + (lines + (end + "\n"))), begin, end) == Region(|a|, |a| + |begin| + |lines| + |end|)
  {
    var inner := lines + (end + "\n");
    FirstAfterLines(a, begin, inner, 0);
    EndOfParts(a, begin, lines, end);
    RegionIs(a + (begin + inner), begin, end, |a|, |a| + |begin| + |lines|);
  }

  lemma EndOfParts(a: string, begin: string, lines: string, end: string)
    requires Inline(end) && lines != "" && lines[|lines| - 1] == '\n' && !Contains(lines, end)
    ensures IndexFrom(a + (begin + (lines + (end + "\n"))), end, |a| + |begin|) == Some(|a| + |begin| + |lines|)
  {
    Assoc(a, begin, lines + (end + "\n"));
    FirstAfterParts(a + begin, lines, end, "\n");
  }

  /** The region of a block put after lines that do not hold its begin marker. */
  lemma RegionOfBlock(a: string, begin: string, body: string, end: string)
    requires Inline(begin) && Inline(end) && BodyOf(end, body) && (a == "" || a[|a| - 1] == '\n') && !Contains(a, begin)
    ensures RegionOf(a + Block(begin, body, end), begin, end) == Region(|a|, |a + Block(begin, body, end)| - 1)
  {
    BlockParts(begin, body, end);
    RegionOfParts(a, begin, "\n" + body, end);
  }

  lemma BlockParts(begin: string, body: string, end: string)
    ensures Block(begin, body, end) == begin + (("\n" + body) + (end + "\n"))
  {
  }

  lemma TrimAhead(kept: string)
    requires TrimEnd(kept) == kept
    ensures TrimEnd(Ahead(kept)) == kept && (kept != "" ==> TrimEnd(kept + "\n") == kept)
  {
    TrimEndIs(Ahead(kept), kept);
    if kept != "" {
      TrimEndIs(kept + "\n", kept);
    }
  }

  /** Stripping a block that was appended leaves what was before it, ended by one newline. */
  lemma StripAppended(kept: string, begin: string, body: string, end: string)
    requires Inline(begin) && Inline(end) && BodyOf(end, body) && TrimEnd(kept) == kept && !Contains(kept, begin)
    ensures Strip(Appended(kept, Block(begin, body, end)), begin, end) == if kept == "" then "" else kept + "\n"
  {
    var a, block := Ahead(kept), Block(begin, body, end);
    if kept != "" {
      NotInLines(kept, "\n\n", begin, 0);
    }
    RegionOfBlock(a, begin, body, end);
    TrimAhead(kept);
    StripLast(a, kept, block, begin, end);
  }

  /** Stripping a region that ends before the text's last newline keeps what is ahead of it. */
  lemma StripLast(a: string, kept: string, block: string, begin: string, end: string)
    requires a == Ahead(kept) && TrimEnd(a) == kept && begin != "" && block != "" && block[|block| - 1] == '\n'
    requires RegionOf(a + block, begin, end) == Region(|a|, |a + block| - 1)
    ensures Strip(a + block, begin, end) == if kept == "" then "" else kept + "\n"
  {
    var text := a + block;
    assert text[..|a|] == a && text[|text| - 1] == '\n';
    assert SkipNewlines(text, |text| - 1) == |text|;
    assert kept != "" ==> text[..|kept| + 1] == kept + "\n";
  }

  lemma TrimmedLacks(text: string, marker: string)
    requires !Contains(text, marker)
    ensures !Contains(TrimEnd(text), marker) && TrimEnd(TrimEnd(text)) == TrimEnd(text)
  {
    var kept := TrimEnd(text);
    assert text == kept + text[|kept|..];
    NotInPrefix(kept, text[|kept|..], marker);
    TrimEndIs(kept, kept);
  }

  /** Removing what was installed gives back the text with its trailing newlines normalised. */
  lemma RemoveUndoesInstall(text: string, tag: string, body: string)
    requires '\n' !in tag && BodyOf(EndMarker(tag), body) && !Contains(text, BeginMarker(tag))
    ensures Removed(Installed(text, tag, Block(BeginMarker(tag), body, EndMarker(tag))), tag)
            == TrimTrailingBlankLines(text)
  {
    MarkersInline(tag);
    TrimmedLacks(text, BeginMarker(tag));
    var kept := TrimEnd(text);
    StripAppended(kept, BeginMarker(tag), body, EndMarker(tag));
    TrimAhead(kept);
  }

  /** Installing again changes nothing, whether or not the tag had a block before. */
  lemma InstallTwice(text: string, tag: string, body: string)
    requires '\n' !in tag && BodyOf(EndMarker(tag), body) && !Contains(StripBlock(text, tag), BeginMarker(tag))
    ensures
      var block := Block(BeginMarker(tag), body, EndMarker(tag));
      Installed(Installed(text, tag, block), tag, block) == Installed(text, tag, block)
  {
    MarkersInline(tag);
    TrimmedLacks(StripBlock(text, tag), BeginMarker(tag));
    var kept := TrimEnd(StripBlock(text, tag));
    StripAppended(kept, BeginMarker(tag), body, EndMarker(tag));
    TrimAhead(kept);
  }

  // ---- What stripping leaves ----

  lemma HeadIs(text: string, b: nat)
    requires b < |text|
    ensures
      var kept := TrimEnd(text[..b]);
      text[..HeadEnd(text, b)] == kept + if kept == "" then "" else if text[b - 1] == '\n' then "\n" else [text[b]]
  {
    var kept := TrimEnd(text[..b]);
    if kept != "" {
      assert text[..|kept| + 1] == kept + [text[|kept|]];
      if |kept| < b {
        assert text[..b][|kept|] == '\n' && text[..b][b - 1] == '\n';
      } else {
        assert text[b - 1] == kept[|kept| - 1];
      }
    }
  }

  /** What is left between the text before the block and the text after it: a line end, or, when
      the block did not start a line, the marker's first character. */
  lemma StripLeaves(text: string, tag: string)
    requires RegionOf(text, BeginMarker(tag), EndMarker(tag)).Region?
    ensures
      var Region(b, e) := RegionOf(text, BeginMarker(tag), EndMarker(tag));
      var kept := TrimEnd(text[..b]);
      StripBlock(text, tag) == kept + (if kept == "" then "" else if text[b - 1] == '\n' then "\n" else "<")
                               + text[SkipNewlines(text, e)..]
  {
    var Region(b, e) := RegionOf(text, BeginMarker(tag), EndMarker(tag));
    IndexFirst(text, BeginMarker(tag));
    OccursMeans(text, BeginMarker(tag), b, 0);
    HeadIs(text, b);
  }

  /** Text outside the block, not starting or ending with a newline, is still there: before the
      block at the same place, after it moved up by what was cut. */
  lemma OthersStay(text: string, begin: string, end: string, w: string, q: nat)
    requires begin != "" && RegionOf(text, begin, end).Region?
    requires OccursAt(text, w, q) && w != "" && w[0] != '\n' && w[|w| - 1] != '\n'
    requires q + |w| <= RegionOf(text, begin, end).start || q >= RegionOf(text, begin, end).end
    ensures
      var cut := |text| - |Strip(text, begin, end)|;
      if q < RegionOf(text, begin, end).start then OccursAt(Strip(text, begin, end), w, q)
      else q >= cut && OccursAt(Strip(text, begin, end), w, q - cut)
  {
    var Region(b, e) := RegionOf(text, begin, end);
    StayAround(text, b, e, w, q, Strip(text, begin, end));
  }

  lemma StayAround(text: string, b: nat, e: nat, w: string, q: nat, out: string)
    requires b < e <= |text| && OccursAt(text, w, q) && w != "" && w[0] != '\n' && w[|w| - 1] != '\n'
    requires q + |w| <= b || q >= e
    requires out == text[..HeadEnd(text, b)] + text[SkipNewlines(text, e)..]
    ensures
      var cut := |text| - |out|;
      if q < b then OccursAt(out, w, q) else q >= cut && OccursAt(out, w, q - cut)
  {
    var h, t := HeadEnd(text, b), SkipNewlines(text, e);
    OccursMeans(text, w, q, 0);
    OccursMeans(text, w, q, |w| - 1);
    if q < b {
      assert text[..b][q + |w| - 1] != '\n';
      assert q + |w| <= h;
      StaysBefore(text, h, text[t..], w, q);
    } else {
      assert q >= t;
      StaysAfter(text, t, text[..h], w, q);
    }
  }

  lemma StaysBefore(text: string, h: nat, after: string, w: string, q: nat)
    requires h <= |text| && OccursAt(text, w, q) && q + |w| <= h
    ensures OccursAt(text[..h] + after, w, q)
  {
    assert text == text[..h] + text[h..];
    OccursInPart(text[..h], text[h..], w, q);
    OccursInPart(text[..h], after, w, q);
  }

  lemma StaysAfter(text: string, t: nat, before: string, w: string, q: nat)
    requires t <= q && t <= |text| && OccursAt(text, w, q)
    ensures OccursAt(before + text[t..], w, |before| + (q - t))
  {
    assert text == text[..t] + text[t..];
    OccursInPart(text[..t], text[t..], w, q);
    OccursInPart(before, text[t..], w, |before| + (q - t));
  }

  // ---- The file ----

  /** `strip_block` as it runs: two indices moved over the newlines around the region. */
  method StripInText(text: string, tag: string) returns (out: string)
    ensures out == StripBlock(text, tag)
  {
    var region := RegionOf(text, BeginMarker(tag), EndMarker(tag));
    if region.Nowhere? {
      return text;
    }
    var tailStart := SkipLoop(text, region.end);
    var headEnd := HeadLoop(text, region.start);
    if headEnd > 0 {
      headEnd := headEnd + 1;
    }
    out := text[..headEnd] + text[tailStart..];
  }

  method SkipLoop(text: string, from: nat) returns (i: nat)
    requires from <= |text|
    ensures i == SkipNewlines(text, from)
  {
    i := from;
    while i < |text| && text[i] == '\n'
      invariant from <= i <= |text| && forall k | from <= k < i :: text[k] == '\n'
    {
      i := i + 1;
    }
    SkipNewlinesIs(text, from, i);
  }

  lemma {:induction false} SkipNewlinesIs(text: string, i: nat, r: nat)
    requires i <= r <= |text| && (forall k | i <= k < r :: text[k] == '\n') && (r < |text| ==> text[r] != '\n')
    ensures SkipNewlines(text, i) == r
    decreases r - i
  {
    if i < r {
      SkipNewlinesIs(text, i + 1, r);
    }
  }

  method HeadLoop(text: string, b: nat) returns (h: nat)
    requires b <= |text|
    ensures h == |TrimEnd(text[..b])|
  {
    h := b;
    while h > 0 && text[h - 1] == '\n'
      invariant h <= b && forall k | h <= k < b :: text[k] == '\n'
    {
      h := h - 1;
    }
    TrimEndIs(text[..b], text[..h]);
  }

  datatype IoError = Missing

  /** An agent's instruction file, which need not exist. */
  class InstructionFile {
    var text: Option<string>

    constructor (text: Option<string>)
      ensures this.text == text
    {
      this.text := text;
    }

    /** `write_block`: replaces the tag's block or appends it; a file that would not change is left. */
    method WriteBlock(tag: string, block: string) returns (changed: bool)
      modifies this
      ensures
        var original := if old(text).Some? then old(text).value else "";
        && changed == (Installed(original, tag, block) != original)
        && text == if changed then Some(Installed(original, tag, block)) else old(text)
    {
      var original := if text.Some? then text.value else "";
      var stripped := StripInText(original, tag);
      var updated := TrimEnd(stripped);
      if updated != "" {
        updated := updated + "\n\n";
      }
      updated := updated + block;
      changed := updated != original;
      if changed {
        text := Some(updated);
      }
    }

    /** `remove_block`: fails on a missing file. */
    method RemoveBlock(tag: string) returns (r: Result<bool, IoError>)
      modifies this
      ensures
        match old(text)
        case None => r == Err(Missing) && text == None
        case Some(original) => r == Ok(Removed(original, tag) != original) && text == Some(Removed(original, tag))
    {
      if text.None? {
        return Err(Missing);
      }
      var stripped := StripInText(text.value, tag);
      var final := TrimTrailingBlankLines(stripped);
      r := Ok(final != text.value);
      text := Some(final);
    }
  }
}
