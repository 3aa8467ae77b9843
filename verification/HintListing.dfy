/** Listing the hint blocks of a text, and how a listing is cut in two. */
module HintListing {
  import opened Wrappers
  import opened Strings
  import opened AgentHint

  // ---- Scanning by a finder ----

  /** A name's place, and where scanning goes on. */
  datatype Span = Nothing | Span(start: nat, end: nat, next: nat)

  /** The first name from a position on. */
  type Finder = nat -> Span

  /** The text after the last prefix, where a name has begun. */
  type Opener = nat -> Option<string>

  ghost predicate Sound(find: Finder, size: nat) {
    forall i: nat | find(i).Span? ::
      i <= find(i).start <= find(i).end < find(i).next <= size && i < find(i).next
  }

  /** What a scan lists, and the name it has begun at the end of the text, if any. */
  datatype Listing = Listing(tags: seq<string>, open: Option<string>)

  function Headed(tag: string, l: Listing): Listing {
    Listing([tag] + l.tags, l.open)
  }

  function Followed(l: Listing, r: Listing): Listing {
    Listing(l.tags + r.tags, r.open)
  }

  function Scanned(find: Finder, begun: Opener, text: string, i: nat): Listing
    requires Sound(find, |text|)
    decreases |text| - i
  {
    match find(i)
    case Nothing => Listing([], begun(i))
    case Span(start, end, next) => Headed(text[start..end], Scanned(find, begun, text, next))
  }

  function Move(n: nat, r: Span): Span {
    match r
    case Nothing => Nothing
    case Span(start, end, next) => Span(n + start, n + end, n + next)
  }

  ghost predicate ShiftsAt(whole: Finder, opens: Opener, part: Finder, begun: Opener, n: nat, k: nat) {
    whole(n + k) == Move(n, part(k)) && opens(n + k) == begun(k)
  }

  /** The whole finds from `n` on what the part finds from its start on. */
  ghost predicate Shifts(whole: Finder, opens: Opener, part: Finder, begun: Opener, n: nat, size: nat) {
    forall k: nat | k <= size :: ShiftsAt(whole, opens, part, begun, n, k)
  }

  lemma {:induction false} ScannedShift(whole: Finder, opens: Opener, part: Finder, begun: Opener, x: string, z: string,
                                        i: nat, at: nat)
    requires at == |x| + i && i <= |z| && Sound(whole, |x + z|) && Sound(part, |z|)
    requires Shifts(whole, opens, part, begun, |x|, |z|)
    ensures Scanned(whole, opens, x + z, at) == Scanned(part, begun, z, i)
    decreases |z| - i
  {
    assert ShiftsAt(whole, opens, part, begun, |x|, i);
    if part(i).Span? {
      var s := part(i);
      ScannedShift(whole, opens, part, begun, x, z, s.next, whole(at).next);
      SliceShifts(x, z, s.start, s.end);
    }
  }

  /** What the part finds the whole finds. */
  ghost predicate Extends(whole: Finder, part: Finder, size: nat) {
    forall k: nat | k <= size && part(k).Span? :: whole(k) == part(k)
  }

  ghost predicate StopsAt(whole: Finder, opens: Opener, text: string, k: nat, r: Listing)
    requires Sound(whole, |text|)
  {
    Scanned(whole, opens, text, k) == r
  }

  /** Where the part finds nothing more, the scan of the whole goes on as `r`. */
  ghost predicate GoesOn(whole: Finder, opens: Opener, part: Finder, begun: Opener, size: nat, text: string,
                         open: Option<string>, r: Listing)
    requires Sound(whole, |text|)
  {
    forall k: nat | k <= size && part(k).Nothing? && begun(k) == open :: StopsAt(whole, opens, text, k, r)
  }

  lemma {:induction false} ScannedCut(whole: Finder, opens: Opener, part: Finder, begun: Opener, x: string, z: string,
                                      i: nat, open: Option<string>, r: Listing)
    requires i <= |x| && Sound(whole, |x + z|) && Sound(part, |x|) && Extends(whole, part, |x|)
    requires open == Scanned(part, begun, x, i).open && GoesOn(whole, opens, part, begun, |x|, x + z, open, r)
    ensures Scanned(whole, opens, x + z, i) == Followed(Scanned(part, begun, x, i), r)
    decreases |x| - i
  {
    var s := part(i);
    if s.Span? {
      ScannedCut(whole, opens, part, begun, x, z, s.next, open, r);
      assert (x + z)[s.start..s.end] == x[s.start..s.end];
      Assoc([x[s.start..s.end]], Scanned(part, begun, x, s.next).tags, r.tags);
    } else {
      assert StopsAt(whole, opens, x + z, i, r);
    }
  }

  lemma {:induction false} NameHasPlace(find: Finder, begun: Opener, text: string, name: string, i: nat)
    returns (k: nat)
    requires Sound(find, |text|) && name in Scanned(find, begun, text, i).tags
    ensures find(k).Span? && text[find(k).start..find(k).end] == name
    decreases |text| - i
  {
    var s := find(i);
    if text[s.start..s.end] == name {
      k := i;
    } else {
      k := NameHasPlace(find, begun, text, name, s.next);
    }
  }

  // ---- Blocks ----

  /** The text between a prefix, if one was found at `p`, and the suffix after it. */
  function SpanAfter(text: string, p: Option<nat>, n: nat, suffix: string): Span
    requires p.Some? ==> p.value + n <= |text|
  {
    match p
    case None => Nothing
    case Some(at) =>
      match IndexFrom(text, suffix, at + n)
      case None => Nothing
      case Some(k) => Span(at + n, k, k + |suffix|)
  }

  /** The text between the first prefix from `i` on and the suffix after it. */
  function FirstBetween(text: string, prefix: string, suffix: string, i: nat): Span
    requires i <= |text|
  {
    SpanAfter(text, IndexFrom(text, prefix, i), |prefix|, suffix)
  }

  function BlockAt(text: string, i: nat): Span {
    if i <= |text| then FirstBetween(text, BEGIN_PREFIX, BEGIN_SUFFIX, i) else Nothing
  }

  /** The text after the first begin prefix from `i` on, if there is one. */
  function Begun(text: string, i: nat): Option<string> {
    if i > |text| then None
    else
      match IndexFrom(text, BEGIN_PREFIX, i)
      case None => None
      case Some(p) => Some(text[p + |BEGIN_PREFIX|..])
  }

  function Blocks(text: string): Finder {
    (i: nat) => BlockAt(text, i)
  }

  function Begins(text: string): Opener {
    (i: nat) => Begun(text, i)
  }

  lemma BlocksSound(text: string)
    ensures Sound(Blocks(text), |text|)
  {
  }

  function ScanFrom(text: string, i: nat): Listing {
    BlocksSound(text);
    Scanned(Blocks(text), Begins(text), text, i)
  }

  function Scan(text: string): Listing {
    ScanFrom(text, 0)
  }

  /** The tags listed from `i` on. */
  function TagsFrom(text: string, i: nat): seq<string> {
    ScanFrom(text, i).tags
  }

  /** `find_all_blocks`. */
  function Tags(text: string): seq<string> {
    Scan(text).tags
  }

  /** Every begin prefix met by the listing has a suffix after it. */
  predicate Closed(text: string) {
    Scan(text).open.None?
  }

  /** The listing as the loop makes it, moving a cursor. */
  method FindAllBlocks(text: string) returns (tags: seq<string>)
    ensures tags == Tags(text)
  {
    tags := [];
    var cursor := 0;
    while true
      invariant cursor <= |text| && tags + TagsFrom(text, cursor) == Tags(text)
      decreases |text| - cursor
    {
      ScanStep(text, cursor);
      var first := BlockAt(text, cursor);
      if first.Nothing? {
        break;
      }
      tags := tags + [text[first.start..first.end]];
      cursor := first.next;
    }
  }

  // ---- Cutting a listing ----

  function Shifted(n: nat, p: Option<nat>): Option<nat> {
    match p
    case None => None
    case Some(i) => Some(n + i)
  }

  lemma SpanShifts(text: string, x: string, z: string, p: Option<nat>, n: nat, suffix: string)
    requires text == x + z && (p.Some? ==> p.value + n <= |z|)
    ensures SpanAfter(text, Shifted(|x|, p), n, suffix) == Move(|x|, SpanAfter(z, p, n, suffix))
  {
    if p.Some? {
      IndexShifts(x, z, suffix, p.value + n);
    }
  }

  lemma FirstShifts(text: string, x: string, z: string, prefix: string, suffix: string, i: nat)
    requires text == x + z && i <= |z|
    ensures FirstBetween(text, prefix, suffix, |x| + i) == Move(|x|, FirstBetween(z, prefix, suffix, i))
  {
    IndexShifts(x, z, prefix, i);
    SpanShifts(text, x, z, IndexFrom(z, prefix, i), |prefix|, suffix);
  }

  lemma BlockShift(text: string, x: string, z: string, i: nat)
    requires text == x + z && i <= |z|
    ensures BlockAt(text, |x| + i) == Move(|x|, BlockAt(z, i)) && Begun(text, |x| + i) == Begun(z, i)
  {
    FirstShifts(text, x, z, BEGIN_PREFIX, BEGIN_SUFFIX, i);
    BegunShifts(text, x, z, i);
  }

  lemma BegunShifts(text: string, x: string, z: string, i: nat)
    requires text == x + z && i <= |z|
    ensures Begun(text, |x| + i) == Begun(z, i)
  {
    IndexShifts(x, z, BEGIN_PREFIX, i);
    var p := IndexFrom(z, BEGIN_PREFIX, i);
    if p.Some? {
      var a := p.value + |BEGIN_PREFIX|;
      assert text[|x| + a..] == z[a..];
    }
  }

  /** One turn of the scan. */
  lemma ScanStep(text: string, i: nat)
    ensures BlockAt(text, i).Span? ==> BlockAt(text, i).start <= BlockAt(text, i).end <= |text|
    ensures
      ScanFrom(text, i) ==
        match BlockAt(text, i)
        case Nothing => Listing([], Begun(text, i))
        case Span(start, end, next) => Headed(text[start..end], ScanFrom(text, next))
  {
    BlocksSound(text);
    assert Blocks(text)(i) == BlockAt(text, i) && Begins(text)(i) == Begun(text, i);
  }

  lemma BlockIs(text: string, i: nat, a: nat, n: nat)
    requires i <= a <= |text| && |BEGIN_PREFIX| <= a && IndexFrom(text, BEGIN_PREFIX, i) == Some(a - |BEGIN_PREFIX|)
    requires IndexFrom(text, BEGIN_SUFFIX, a) == Some(n)
    ensures BlockAt(text, i) == Span(a, n, n + |BEGIN_SUFFIX|)
  {
  }

  lemma ScanSpan(text: string, i: nat, start: nat, end: nat, next: nat)
    requires BlockAt(text, i) == Span(start, end, next)
    ensures start <= end <= |text| && ScanFrom(text, i) == Headed(text[start..end], ScanFrom(text, next))
  {
    ScanStep(text, i);
  }

  lemma BlocksShift(text: string, x: string, z: string)
    requires text == x + z
    ensures Shifts(Blocks(text), Begins(text), Blocks(z), Begins(z), |x|, |z|)
  {
    forall k: nat | k <= |z| ensures ShiftsAt(Blocks(text), Begins(text), Blocks(z), Begins(z), |x|, k) {
      BlockShift(text, x, z, k);
      ShiftedAt(text, z, |x|, k);
    }
  }

  lemma ShiftedAt(text: string, z: string, n: nat, k: nat)
    requires BlockAt(text, n + k) == Move(n, BlockAt(z, k)) && Begun(text, n + k) == Begun(z, k)
    ensures ShiftsAt(Blocks(text), Begins(text), Blocks(z), Begins(z), n, k)
  {
  }

  /** Scanning goes on after a cut as it goes through the part after it. */
  lemma ScanShift(x: string, z: string, i: nat)
    requires i <= |z|
    ensures ScanFrom(x + z, |x| + i) == ScanFrom(z, i)
  {
    ScanShifted(x + z, x, z, i, |x| + i);
  }

  lemma ScanShifted(text: string, x: string, z: string, i: nat, at: nat)
    requires text == x + z && i <= |z| && at == |x| + i
    ensures ScanFrom(text, at) == ScanFrom(z, i)
  {
    BlocksShift(text, x, z);
    BlocksSound(text);
    BlocksSound(z);
    ScannedShift(Blocks(text), Begins(text), Blocks(z), Begins(z), x, z, i, at);
  }

  lemma ScanInTail(text: string, b: nat, k: nat)
    requires b + k <= |text|
    ensures ScanFrom(text, b + k) == ScanFrom(text[b..], k)
  {
    assert text == text[..b] + text[b..];
    ScanShift(text[..b], text[b..], k);
  }

  /** Scanning a text from `t` on is scanning what starts there. */
  lemma ScanTail(text: string, t: nat)
    requires t <= |text|
    ensures ScanFrom(text, t) == Scan(text[t..])
  {
    ScanInTail(text, t, 0);
  }

  lemma SameScan(text: string, i: nat, j: nat)
    requires i <= |text| && j <= |text| && IndexFrom(text, BEGIN_PREFIX, i) == IndexFrom(text, BEGIN_PREFIX, j)
    ensures ScanFrom(text, i) == ScanFrom(text, j)
  {
    assert BlockAt(text, i) == BlockAt(text, j) && Begun(text, i) == Begun(text, j);
    ScanStep(text, i);
    ScanStep(text, j);
  }

  /** Scanning may skip places where no begin prefix starts. */
  lemma ScanSkip(text: string, i: nat, j: nat)
    requires i <= j <= |text| && AbsentIn(text, BEGIN_PREFIX, i, j)
    ensures ScanFrom(text, i) == ScanFrom(text, j)
  {
    IndexSkips(text, BEGIN_PREFIX, i, j);
    SameScan(text, i, j);
  }

  /** Scanning the rest of a text in which a name has begun. */
  function Within(name: string, rest: string): Listing {
    match IndexOf(rest, BEGIN_SUFFIX)
    case None => Listing([], Some(name + rest))
    case Some(n) => Headed(name + rest[..n], ScanFrom(rest, n + |BEGIN_SUFFIX|))
  }

  /** Scanning the rest of a text when `open` is what a name has begun with, if one has. */
  function Resume(open: Option<string>, rest: string): Listing {
    if open.Some? then Within(open.value, rest) else Scan(rest)
  }

  /** What the scan looks for where the first part ends does not lie across the cut. */
  predicate CutsClean(open: Option<string>, x: string, z: string) {
    NoStraddle(x, z, if open.Some? then BEGIN_SUFFIX else BEGIN_PREFIX)
  }

  lemma CutBlock(x: string, z: string, i: nat)
    requires i <= |x| && BlockAt(x, i).Span?
    ensures BlockAt(x + z, i) == BlockAt(x, i)
  {
    IndexInLonger(x, z, BEGIN_PREFIX, i);
    IndexInLonger(x, z, BEGIN_SUFFIX, IndexFrom(x, BEGIN_PREFIX, i).value + |BEGIN_PREFIX|);
  }

  lemma CutQuiet(x: string, z: string, i: nat)
    requires i <= |x| && Begun(x, i).None? && NoStraddle(x, z, BEGIN_PREFIX)
    ensures ScanFrom(x + z, i) == Scan(z)
  {
    IndexBeyond(x, z, BEGIN_PREFIX, i);
    SameScan(x + z, i, |x|);
    ScanShift(x, z, 0);
  }

  /** A name begun in the first part ends at the first suffix in the second. */
  lemma CutInName(x: string, z: string, i: nat)
    requires i <= |x| && BlockAt(x, i).Nothing? && Begun(x, i).Some? && NoStraddle(x, z, BEGIN_SUFFIX)
    ensures ScanFrom(x + z, i) == Within(Begun(x, i).value, z)
  {
    NameCut(x, z, i, IndexFrom(x, BEGIN_PREFIX, i).value + |BEGIN_PREFIX|);
  }

  lemma NameCut(x: string, z: string, i: nat, a: nat)
    requires i < a <= |x| && IndexFrom(x, BEGIN_PREFIX, i) == Some(a - |BEGIN_PREFIX|)
    requires IndexFrom(x, BEGIN_SUFFIX, a).None? && NoStraddle(x, z, BEGIN_SUFFIX)
    ensures ScanFrom(x + z, i) == Within(x[a..], z)
  {
    var k := IndexOf(z, BEGIN_SUFFIX);
    NameGoesOn(x, z, i, a);
    if k.Some? {
      NameAcross(x, z, i, a, k.value);
    } else {
      NameToEnd(x, z, i, a);
    }
  }

  lemma NameToEnd(x: string, z: string, i: nat, a: nat)
    requires i <= a <= |x| && BlockAt(x + z, i).Nothing? && Begun(x + z, i) == Some((x + z)[a..])
    ensures ScanFrom(x + z, i) == Listing([], Some(x[a..] + z))
  {
    ScanStep(x + z, i);
    assert (x + z)[a..] == x[a..] + z;
  }

  lemma NameGoesOn(x: string, z: string, i: nat, a: nat)
    requires i < a <= |x| && IndexFrom(x, BEGIN_PREFIX, i) == Some(a - |BEGIN_PREFIX|)
    requires IndexFrom(x, BEGIN_SUFFIX, a).None? && NoStraddle(x, z, BEGIN_SUFFIX)
    ensures
      match IndexOf(z, BEGIN_SUFFIX)
      case None => BlockAt(x + z, i).Nothing? && Begun(x + z, i) == Some((x + z)[a..])
      case Some(k) => BlockAt(x + z, i) == Span(a, |x| + k, |x| + k + |BEGIN_SUFFIX|)
  {
    IndexInLonger(x, z, BEGIN_PREFIX, i);
    SearchGoesOn(x, z, BEGIN_SUFFIX, a);
  }

  lemma NameAcross(x: string, z: string, i: nat, a: nat, k: nat)
    requires i <= a <= |x| && k + |BEGIN_SUFFIX| <= |z|
    requires BlockAt(x + z, i) == Span(a, |x| + k, |x| + k + |BEGIN_SUFFIX|)
    ensures ScanFrom(x + z, i) == Headed(x[a..] + z[..k], ScanFrom(z, k + |BEGIN_SUFFIX|))
  {
    SpanAcross(x + z, x, z, i, a, k, k + |BEGIN_SUFFIX|);
  }

  lemma SpanAcross(text: string, x: string, z: string, i: nat, a: nat, k: nat, next: nat)
    requires text == x + z && i <= a <= |x| && k <= next <= |z|
    requires BlockAt(text, i) == Span(a, |x| + k, |x| + next)
    ensures ScanFrom(text, i) == Headed(x[a..] + z[..k], ScanFrom(z, next))
  {
    SliceAcross(x, z, a, k);
    ScanSpan(text, i, a, |x| + k, |x| + next);
    ScanShift(x, z, next);
  }

  lemma BlocksExtend(x: string, z: string)
    ensures Extends(Blocks(x + z), Blocks(x), |x|)
  {
    forall k: nat | k <= |x| && Blocks(x)(k).Span? ensures Blocks(x + z)(k) == Blocks(x)(k) {
      CutBlock(x, z, k);
    }
  }

  /** A scan goes through a text in two parts: the first, and the rest as the first leaves it. */
  lemma ScanCut(x: string, z: string)
    requires CutsClean(Scan(x).open, x, z)
    ensures Scan(x + z) == Followed(Scan(x), Resume(Scan(x).open, z))
  {
    var open := Scan(x).open;
    BlocksSound(x + z);
    BlocksSound(x);
    BlocksExtend(x, z);
    forall k: nat | k <= |x| && Blocks(x)(k).Nothing? && Begins(x)(k) == open
      ensures StopsAt(Blocks(x + z), Begins(x + z), x + z, k, Resume(open, z))
    {
      CutStops(x, z, k, open);
    }
    ScannedCut(Blocks(x + z), Begins(x + z), Blocks(x), Begins(x), x, z, 0, open, Resume(open, z));
  }

  lemma CutStops(x: string, z: string, k: nat, open: Option<string>)
    requires k <= |x| && BlockAt(x, k).Nothing? && Begun(x, k) == open && CutsClean(open, x, z)
    ensures ScanFrom(x + z, k) == Resume(open, z)
  {
    if open.Some? {
      CutInName(x, z, k);
    } else {
      CutQuiet(x, z, k);
    }
  }

  /** Neither marker delimiter has an angle bracket but in front of a prefix. */
  lemma AngleStops(x: string, z: string)
    requires z != "" && z[0] == '<'
    ensures NoStraddle(x, z, BEGIN_PREFIX) && NoStraddle(x, z, BEGIN_SUFFIX)
  {
    assert (x + z)[|x|] == '<';
    assert forall j | 0 < j < |BEGIN_PREFIX| :: BEGIN_PREFIX[j] != '<';
    assert forall j | 0 < j < |BEGIN_SUFFIX| :: BEGIN_SUFFIX[j] != '<';
    forall k: nat | k < |x| < k + |BEGIN_PREFIX| ensures !OccursAt(x + z, BEGIN_PREFIX, k) {
      Mismatch(x + z, BEGIN_PREFIX, k, |x| - k);
    }
    forall k: nat | k < |x| < k + |BEGIN_SUFFIX| ensures !OccursAt(x + z, BEGIN_SUFFIX, k) {
      Mismatch(x + z, BEGIN_SUFFIX, k, |x| - k);
    }
  }

  // ---- Tags and their delimiter forms ----

  lemma {:induction false} NoDashes(tag: string, k: nat)
    requires k + 1 < |Sanitize(tag)|
    ensures !(Sanitize(tag)[k] == '-' && Sanitize(tag)[k + 1] == '-')
    decreases |tag|
  {
    if tag[0] == '-' && tag[1] == '-' {
      if k >= 2 {
        NoDashes(tag[2..], k - 2);
      }
    } else if k >= 1 {
      NoDashes(tag[1..], k - 1);
    } else {
      SanitizeHead(tag[1..]);
    }
  }

  lemma SanitizeHead(tag: string)
    ensures tag != "" ==> Sanitize(tag) != "" && (Sanitize(tag)[0] == '-' ==> tag[0] == '-')
  {
  }

  /** Two dashes within the suffix keep it out of a name that has none together; a first character
      it does not repeat keeps it from starting in the name and ending beyond. */
  lemma NotWithinName(text: string, name: string, suffix: string, at: nat, k: nat)
    requires OccursAt(text, name, at) && OccursAt(text, suffix, at + |name|) && at <= k < at + |name|
    requires |suffix| == 14 && suffix[11] == '-' && suffix[12] == '-'
             && forall j | 0 < j < |suffix| :: suffix[j] != suffix[0]
    requires forall j: nat | j + 1 < |name| :: !(name[j] == '-' && name[j + 1] == '-')
    ensures !OccursAt(text, suffix, k)
  {
    var j := k - at;
    if j + 12 < |name| {
      OccursMeans(text, name, at, j + 11);
      OccursMeans(text, name, at, j + 12);
      Mismatch(text, suffix, k, if name[j + 11] != '-' then 11 else 12);
    } else {
      OccursMeans(text, suffix, at + |name|, 0);
      if |name| - j < |suffix| {
        Mismatch(text, suffix, k, |name| - j);
      }
    }
  }

  /** A begin suffix does not start within a tag's delimiter form. */
  lemma SuffixNotEarlier(text: string, tag: string, at: nat, k: nat)
    requires OccursAt(text, Sanitize(tag), at) && OccursAt(text, BEGIN_SUFFIX, at + |Sanitize(tag)|)
             && at <= k < at + |Sanitize(tag)|
    ensures !OccursAt(text, BEGIN_SUFFIX, k)
  {
    forall j: nat | j + 1 < |Sanitize(tag)| ensures !(Sanitize(tag)[j] == '-' && Sanitize(tag)[j + 1] == '-') {
      NoDashes(tag, j);
    }
    NotWithinName(text, Sanitize(tag), BEGIN_SUFFIX, at, k);
  }

  /** An occurrence of a concatenation is occurrences of its parts, one after the other. */
  lemma OccursInTwo(text: string, p: string, q: string, b: nat)
    ensures OccursAt(text, p + q, b) <==> OccursAt(text, p, b) && OccursAt(text, q, b + |p|)
  {
    if b + |p + q| <= |text| {
      assert text[b..b + |p + q|] == text[b..b + |p|] + text[b + |p|..b + |p| + |q|];
      assert text[b..b + |p + q|] == p + q ==> text[b..b + |p + q|][..|p|] == p && text[b..b + |p + q|][|p|..] == q;
    }
  }

  lemma MarkerParts(text: string, tag: string, b: nat)
    ensures OccursAt(text, BeginMarker(tag), b)
       <==> OccursAt(text, BEGIN_PREFIX, b) && OccursAt(text, Sanitize(tag), b + |BEGIN_PREFIX|)
            && OccursAt(text, BEGIN_SUFFIX, b + |BEGIN_PREFIX| + |Sanitize(tag)|)
  {
    OccursInTwo(text, BEGIN_PREFIX + Sanitize(tag), BEGIN_SUFFIX, b);
    OccursInTwo(text, BEGIN_PREFIX, Sanitize(tag), b);
  }

  /** A tag's begin marker is found under the tag's delimiter form. */
  lemma MarkerIsFound(text: string, tag: string, b: nat)
    requires OccursAt(text, BeginMarker(tag), b)
    ensures
      var a := b + |BEGIN_PREFIX|;
      var n := a + |Sanitize(tag)|;
      b <= |text| && BlockAt(text, b) == Span(a, n, b + |BeginMarker(tag)|) && n <= |text|
        && text[a..n] == Sanitize(tag)
  {
    var a, s := b + |BEGIN_PREFIX|, Sanitize(tag);
    MarkerParts(text, tag, b);
    IndexFromIs(text, BEGIN_PREFIX, b, b);
    forall k | a <= k < a + |s| ensures !OccursAt(text, BEGIN_SUFFIX, k) {
      SuffixNotEarlier(text, tag, a, k);
    }
    IndexFromIs(text, BEGIN_SUFFIX, a, a + |s|);
  }

  lemma MarkerIsListed(text: string, tag: string, b: nat, a: nat)
    requires OccursAt(text, BeginMarker(tag), b) && a == b + |BeginMarker(tag)|
    ensures ScanFrom(text, b) == Headed(Sanitize(tag), ScanFrom(text, a))
  {
    MarkerIsFound(text, tag, b);
    ScanStep(text, b);
  }

  lemma FoundBetween(text: string, prefix: string, suffix: string, k: nat)
    requires k <= |text| && FirstBetween(text, prefix, suffix, k).Span?
    ensures
      var s := FirstBetween(text, prefix, suffix, k);
      |prefix| <= s.start && OccursAt(text, prefix, s.start - |prefix|) && OccursAt(text, suffix, s.end)
  {
    IndexFromFirst(text, prefix, k);
    IndexFromFirst(text, suffix, IndexFrom(text, prefix, k).value + |prefix|);
  }

  /** What is found under a tag's delimiter form is the tag's begin marker. */
  lemma FoundIsMarker(text: string, tag: string, k: nat, s: Span)
    requires k <= |text| && s == BlockAt(text, k) && s.Span? && s.start <= s.end <= |text|
    requires text[s.start..s.end] == Sanitize(tag)
    ensures |BEGIN_PREFIX| <= s.start && OccursAt(text, BeginMarker(tag), s.start - |BEGIN_PREFIX|)
  {
    FoundBetween(text, BEGIN_PREFIX, BEGIN_SUFFIX, k);
    PartsAreMarker(text, tag, s.start - |BEGIN_PREFIX|, s.start, s.end);
  }

  lemma PartsAreMarker(text: string, tag: string, b: nat, a: nat, n: nat)
    requires a == b + |BEGIN_PREFIX| && a <= n <= |text| && text[a..n] == Sanitize(tag)
    requires OccursAt(text, BEGIN_PREFIX, b) && OccursAt(text, BEGIN_SUFFIX, n)
    ensures OccursAt(text, BeginMarker(tag), b)
  {
    assert n == a + |Sanitize(tag)|;
    MarkerParts(text, tag, b);
  }

  /** A listed tag has its begin marker in the text. */
  lemma ListedHasMarker(text: string, tag: string) returns (m: nat)
    requires Sanitize(tag) in Tags(text)
    ensures OccursAt(text, BeginMarker(tag), m)
  {
    var k, s := ListedHasPlace(text, Sanitize(tag));
    FoundIsMarker(text, tag, k, s);
    m := s.start - |BEGIN_PREFIX|;
  }

  lemma ListedHasPlace(text: string, name: string) returns (k: nat, s: Span)
    requires name in Tags(text)
    ensures k <= |text| && s == BlockAt(text, k) && s.Span? && s.start <= s.end <= |text|
    ensures text[s.start..s.end] == name
  {
    BlocksSound(text);
    k := NameHasPlace(Blocks(text), Begins(text), text, name, 0);
    s := Blocks(text)(k);
  }

  /** What the listing finds before a tag's first block is not that tag. */
  lemma NotListedBefore(text: string, tag: string, b: nat)
    requires IndexOf(text, BeginMarker(tag)) == Some(b)
    ensures Sanitize(tag) !in Tags(text[..b])
  {
    var x := text[..b];
    IndexFirst(text, BeginMarker(tag));
    if Sanitize(tag) in Tags(x) {
      var m := ListedHasMarker(x, tag);
      assert text == x + text[b..];
      OccursInPart(x, text[b..], BeginMarker(tag), m);
    }
  }

  /** The orphan sweep strips by the listed form of a tag; that names the same block. */
  lemma SanitizeTwice(tag: string)
    ensures Sanitize(Sanitize(tag)) == Sanitize(tag)
  {
    var s := Sanitize(tag);
    forall k: nat | k + 1 < |s| ensures !(s[k] == '-' && s[k + 1] == '-') {
      NoDashes(tag, k);
    }
    NothingToSanitize(s);
  }

  lemma {:induction false} NothingToSanitize(s: string)
    requires forall k: nat | k + 1 < |s| :: !(s[k] == '-' && s[k + 1] == '-')
    ensures Sanitize(s) == s
    decreases |s|
  {
    if |s| >= 2 {
      assert !(s[0] == '-' && s[0 + 1] == '-');
      forall k: nat | k + 1 < |s[1..]| ensures !(s[1..][k] == '-' && s[1..][k + 1] == '-') {
        assert !(s[k + 1] == '-' && s[k + 1 + 1] == '-');
      }
      NothingToSanitize(s[1..]);
    }
  }
}
