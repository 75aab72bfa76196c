/** The content-safety scanner: it turns the pattern hits found in a message into a
    flag, an escalation bit, the list of matches and a copy of the text in which
    every matched rune is replaced by a mask rune.

    The regular expressions themselves are an oracle: `CheckContent` receives, for
    every safety pattern in table order, the spans its FindAllStringIndex call
    reported. Span offsets are rune indices into the content (see README,
    "Findings", for what the source does with byte offsets). */
module Safety {
  import opened Wrappers
  import opened Text

  // Category and severity are plain strings in the source.
  const SelfHarm := "self_harm"
  const HarmToOthers := "harm_to_others"
  const Doxxing := "doxxing"
  const SubstanceAbuse := "substance_abuse"
  const EatingDisorder := "eating_disorder"
  const DomesticAbuse := "domestic_abuse"
  const SexualHarm := "sexual_harm"

  const Critical := "critical"

  /** The rune every masked rune becomes. */
  const MaskRune: char := '▮'

  /** One row of the pattern table, without its regular expression. */
  datatype SafetyPattern = SafetyPattern(category: string, severity: string)

  /** A `[start, end)` pair as FindAllStringIndex reports it. */
  datatype Span = Span(start: int, end: int)

  /** What one pattern's FindAllStringIndex call returned. */
  datatype PatternScan = PatternScan(pattern: SafetyPattern, hits: seq<Span>)

  datatype MatchPos = MatchPos(start: int, end: int, category: string, severity: string)

  datatype SafetyMatch = SafetyMatch(
    category: string,
    severity: string,
    matchedText: string,
    start: int,
    end: int)

  datatype SafetyResult = SafetyResult(
    flagged: bool,
    maskedContent: string,
    matches: seq<SafetyMatch>,
    requiresEscalation: bool)

  // ---------------------------------------------------------------------------
  // Specification

  predicate InBounds(content: string, m: MatchPos) {
    0 <= m.start <= m.end <= |content|
  }

  predicate AllInBounds(content: string, ms: seq<MatchPos>) {
    forall k :: 0 <= k < |ms| ==> InBounds(content, ms[k])
  }

  predicate ScansInBounds(content: string, scans: seq<PatternScan>) {
    forall i, j :: 0 <= i < |scans| && 0 <= j < |scans[i].hits| ==>
      0 <= scans[i].hits[j].start <= scans[i].hits[j].end <= |content|
  }

  /** The match positions one pattern contributes, in the order it found them. */
  function PatternHits(scan: PatternScan): seq<MatchPos> {
    seq(|scan.hits|, j requires 0 <= j < |scan.hits| =>
      MatchPos(scan.hits[j].start, scan.hits[j].end, scan.pattern.category, scan.pattern.severity))
  }

  /** Every hit of every pattern: patterns in table order, each pattern's hits in
      the order it reported them. */
  function Hits(scans: seq<PatternScan>): seq<MatchPos> {
    if scans == [] then [] else Hits(scans[..|scans| - 1]) + PatternHits(scans[|scans| - 1])
  }

  predicate InSpan(m: MatchPos, p: int) {
    m.start <= p < m.end
  }

  /** Rune `p` lies in some span of `ms`. */
  predicate Covered(ms: seq<MatchPos>, p: int) {
    exists k :: 0 <= k < |ms| && InSpan(ms[k], p)
  }

  /** The masked text the scanner must produce: each rune inside some span becomes
      the mask rune, every other rune is kept. */
  function Masked(content: string, ms: seq<MatchPos>): string {
    seq(|content|, p requires 0 <= p < |content| => if Covered(ms, p) then MaskRune else content[p])
  }

  /** The SafetyMatch record kept for one hit. */
  function Report(content: string, m: MatchPos): SafetyMatch
    requires InBounds(content, m)
  {
    SafetyMatch(m.category, m.severity, content[m.start..m.end], m.start, m.end)
  }

  // ---------------------------------------------------------------------------
  // Lemmas about the specification

  lemma CoveredSnoc(ms: seq<MatchPos>, m: MatchPos, p: int)
    ensures Covered(ms + [m], p) <==> Covered(ms, p) || InSpan(m, p)
  {
    if Covered(ms, p) {
      var k :| 0 <= k < |ms| && InSpan(ms[k], p);
      assert (ms + [m])[k] == ms[k];
    }
    if InSpan(m, p) {
      assert (ms + [m])[|ms|] == m;
    }
    if Covered(ms + [m], p) {
      var k :| 0 <= k < |ms + [m]| && InSpan((ms + [m])[k], p);
      if k < |ms| {
        assert (ms + [m])[k] == ms[k];
      }
    }
  }

  lemma CoveredSingle(m: MatchPos, p: int)
    ensures Covered([m], p) <==> InSpan(m, p)
  {
    assert [m][0] == m;
  }

  /** Coverage does not depend on the order of the spans. */
  lemma CoveredPermutation(xs: seq<MatchPos>, ys: seq<MatchPos>, p: int)
    requires multiset(xs) == multiset(ys)
    ensures Covered(xs, p) <==> Covered(ys, p)
  {
    if Covered(xs, p) {
      var k :| 0 <= k < |xs| && InSpan(xs[k], p);
      assert xs[k] in multiset(ys);
      var j :| 0 <= j < |ys| && ys[j] == xs[k];
    }
    if Covered(ys, p) {
      var k :| 0 <= k < |ys| && InSpan(ys[k], p);
      assert ys[k] in multiset(xs);
      var j :| 0 <= j < |xs| && xs[j] == ys[k];
    }
  }

  lemma BoundsPermutation(content: string, xs: seq<MatchPos>, ys: seq<MatchPos>)
    requires multiset(xs) == multiset(ys) && AllInBounds(content, xs)
    ensures AllInBounds(content, ys)
  {
    forall k | 0 <= k < |ys| ensures InBounds(content, ys[k]) {
      assert ys[k] in multiset(xs);
      var j :| 0 <= j < |xs| && xs[j] == ys[k];
    }
  }

  /** Masking keeps the length in runes, masks every rune of every span and keeps
      every rune outside all spans. */
  lemma {:induction false} MaskedShape(content: string, ms: seq<MatchPos>)
    ensures |Masked(content, ms)| == |content|
    ensures forall k, p :: 0 <= k < |ms| && 0 <= p < |content| && InSpan(ms[k], p) ==>
      Masked(content, ms)[p] == MaskRune
    ensures forall p :: 0 <= p < |content| && !Covered(ms, p) ==> Masked(content, ms)[p] == content[p]
  {
  }

  /** With no hits nothing is masked. */
  lemma MaskedNothing(content: string)
    ensures Masked(content, []) == content
  {
  }

  /** Masking an already masked text again changes nothing. */
  lemma MaskedIdempotent(content: string, ms: seq<MatchPos>)
    ensures Masked(Masked(content, ms), ms) == Masked(content, ms)
  {
  }

  // ---------------------------------------------------------------------------
  // Merging spans

  /** Folds `current` into the last merged span (the source does this through a
      pointer to the slice element): the union of the two extents, and "critical"
      if either was. */
  function MergeSpan(last: MatchPos, current: MatchPos): (m: MatchPos)
    ensures m.start == (if current.start < last.start then current.start else last.start)
    ensures m.end == (if current.end > last.end then current.end else last.end)
    ensures m.category == last.category
    ensures m.severity == Critical <==> (last.severity == Critical || current.severity == Critical)
  {
    var s := if current.start < last.start then last.(start := current.start) else last;
    var e := if current.end > s.end then s.(end := current.end) else s;
    if current.severity == Critical then e.(severity := Critical) else e
  }

  /** When `current` starts no later than `last` and reaches it (ends at or after
      its start), the merged span covers exactly the runes of the two. */
  lemma MergeSpanCovers(last: MatchPos, current: MatchPos, p: int)
    requires current.start <= last.start <= current.end
    ensures InSpan(MergeSpan(last, current), p) <==> InSpan(last, p) || InSpan(current, p)
  {
  }

  // ---------------------------------------------------------------------------
  // The algorithm

  /** The exchange sort of maskContent: descending by start, in place. */
  method SortByStartDescending(a: array<MatchPos>)
    modifies a
    ensures forall x, y :: 0 <= x < y < a.Length ==> a[x].start >= a[y].start
    ensures multiset(a[..]) == multiset(old(a[..]))
  {
    var i := 0;
    while i < a.Length
      invariant 0 <= i <= a.Length
      invariant forall x, y :: 0 <= x < i && x < y < a.Length ==> a[x].start >= a[y].start
      invariant multiset(a[..]) == multiset(old(a[..]))
    {
      var j := i + 1;
      while j < a.Length
        invariant i + 1 <= j <= a.Length
        invariant forall x, y :: 0 <= x < i && x < y < a.Length ==> a[x].start >= a[y].start
        invariant forall y :: i < y < j ==> a[i].start >= a[y].start
        invariant multiset(a[..]) == multiset(old(a[..]))
      {
        if a[j].start > a[i].start {
          a[i], a[j] := a[j], a[i];
        }
        j := j + 1;
      }
      i := i + 1;
    }
  }

  /** Every span of `ms` ends at or before `n`. */
  predicate EndsWithin(ms: seq<MatchPos>, n: int) {
    forall k :: 0 <= k < |ms| ==> ms[k].end <= n
  }

  /** Every span of `ms` is a non-negative, forward `[start, end)` pair, as
      FindAllStringIndex reports them. */
  predicate Forward(ms: seq<MatchPos>) {
    forall k :: 0 <= k < |ms| ==> 0 <= ms[k].start <= ms[k].end
  }

  lemma EndsWithinSnoc(ms: seq<MatchPos>, m: MatchPos, n: int)
    ensures EndsWithin(ms + [m], n) <==> EndsWithin(ms, n) && m.end <= n
  {
    if EndsWithin(ms + [m], n) {
      forall k | 0 <= k < |ms| ensures ms[k].end <= n {
        assert (ms + [m])[k] == ms[k];
      }
      assert (ms + [m])[|ms|] == m;
    }
  }

  lemma EndsWithinPermutation(xs: seq<MatchPos>, ys: seq<MatchPos>, n: int)
    requires multiset(xs) == multiset(ys) && EndsWithin(xs, n)
    ensures EndsWithin(ys, n)
  {
    forall k | 0 <= k < |ys| ensures ys[k].end <= n {
      assert ys[k] in multiset(xs);
      var j :| 0 <= j < |xs| && xs[j] == ys[k];
    }
  }

  lemma ForwardPermutation(xs: seq<MatchPos>, ys: seq<MatchPos>)
    requires multiset(xs) == multiset(ys) && Forward(xs)
    ensures Forward(ys)
  {
    forall k | 0 <= k < |ys| ensures 0 <= ys[k].start <= ys[k].end {
      assert ys[k] in multiset(xs);
      var j :| 0 <= j < |xs| && xs[j] == ys[k];
    }
  }

  /** The merge loop of maskContent over hits sorted by descending start: a hit
      that reaches the last merged span is folded into it, any other one opens a
      new span. The merged spans cover exactly the runes the hits cover, and
      since a merged span ends where the furthest of its hits ends, they reach
      exactly as far as the hits do. */
  method MergeOverlapping(sorted: seq<MatchPos>) returns (merged: seq<MatchPos>)
    requires |sorted| >= 1 && Forward(sorted)
    requires forall x, y :: 0 <= x < y < |sorted| ==> sorted[x].start >= sorted[y].start
    ensures Forward(merged)
    ensures forall p :: Covered(merged, p) <==> Covered(sorted, p)
    ensures forall n :: EndsWithin(merged, n) <==> EndsWithin(sorted, n)
  {
    merged := [sorted[0]];
    var i := 1;
    assert sorted[..1] == [sorted[0]];
    while i < |sorted|
      invariant 1 <= i <= |sorted|
      invariant |merged| >= 1
      invariant merged[|merged| - 1].start == sorted[i - 1].start
      invariant Forward(merged)
      invariant forall p :: Covered(merged, p) <==> Covered(sorted[..i], p)
      invariant forall n :: EndsWithin(merged, n) <==> EndsWithin(sorted[..i], n)
    {
      var current := sorted[i];
      var last := merged[|merged| - 1];
      assert sorted[..i + 1] == sorted[..i] + [current];
      if current.end >= last.start {
        var joined := MergeSpan(last, current);
        var front := merged[..|merged| - 1];
        assert merged == front + [last];
        merged := merged[|merged| - 1 := joined];
        assert merged == front + [joined];
        forall p ensures Covered(merged, p) <==> Covered(sorted[..i + 1], p) {
          CoveredSnoc(front, last, p);
          CoveredSnoc(front, joined, p);
          CoveredSnoc(sorted[..i], current, p);
          MergeSpanCovers(last, current, p);
        }
        forall n ensures EndsWithin(merged, n) <==> EndsWithin(sorted[..i + 1], n) {
          EndsWithinSnoc(front, last, n);
          EndsWithinSnoc(front, joined, n);
          EndsWithinSnoc(sorted[..i], current, n);
        }
      } else {
        forall p ensures Covered(merged + [current], p) <==> Covered(sorted[..i + 1], p) {
          CoveredSnoc(merged, current, p);
          CoveredSnoc(sorted[..i], current, p);
        }
        forall n ensures EndsWithin(merged + [current], n) <==> EndsWithin(sorted[..i + 1], n) {
          EndsWithinSnoc(merged, current, n);
          EndsWithinSnoc(sorted[..i], current, n);
        }
        merged := merged + [current];
      }
      i := i + 1;
    }
    assert sorted[..i] == sorted;
  }

  /** The splice loop of maskContent: each span in turn is replaced by as many
      mask runes as it is long. Slicing the rune slice at a span's end panics
      when the end lies past the last rune (None); otherwise every covered rune
      is masked. */
  method SpliceMasks(content: string, merged: seq<MatchPos>) returns (r: Option<string>)
    requires Forward(merged)
    ensures r.None? <==> !EndsWithin(merged, |content|)
    ensures r.Some? ==> r.value == Masked(content, merged)
  {
    var runes := content;
    var k := 0;
    assert merged[..0] == [];
    while k < |merged|
      invariant 0 <= k <= |merged|
      invariant |runes| == |content|
      invariant EndsWithin(merged[..k], |content|)
      invariant forall p :: 0 <= p < |content| ==>
        runes[p] == if Covered(merged[..k], p) then MaskRune else content[p]
    {
      var m := merged[k];
      assert merged[..k + 1] == merged[..k] + [m];
      EndsWithinSnoc(merged[..k], m, |content|);
      if m.end > |runes| {
        assert merged[k].end > |content|;
        return None;
      }
      var maskLength := m.end - m.start;
      runes := runes[..m.start] + Repeat(MaskRune, maskLength) + runes[m.end..];
      forall p | 0 <= p < |content|
        ensures runes[p] == if Covered(merged[..k + 1], p) then MaskRune else content[p]
      {
        CoveredSnoc(merged[..k], m, p);
      }
      k := k + 1;
    }
    assert merged[..k] == merged;
    return Some(runes);
  }

  /** maskContent: sorts the hits, merges overlapping or adjacent ones against the
      last merged span, then overwrites each merged span with as many mask runes
      as it is long. The result is exactly the specified masking. */
  method MaskContent(content: string, matches: seq<MatchPos>) returns (r: string)
    requires AllInBounds(content, matches)
    ensures r == Masked(content, matches)
  {
    if |matches| == 0 {
      MaskedNothing(content);
      return content;
    }

    var a := new MatchPos[|matches|](k requires 0 <= k < |matches| => matches[k]);
    assert a[..] == matches;
    SortByStartDescending(a);
    ForwardPermutation(matches, a[..]);
    EndsWithinPermutation(matches, a[..], |content|);
    var merged := MergeOverlapping(a[..]);
    var spliced := SpliceMasks(content, merged);
    forall p | 0 <= p < |content| ensures spliced.value[p] == Masked(content, matches)[p] {
      CoveredPermutation(a[..], matches, p);
    }
    r := spliced.value;
  }

  /** maskContent as the source runs it on the byte offsets FindAllStringIndex
      reports: the same sort, merge and splice, with the offsets used as indices
      into the rune slice. */
  method MaskContentAsWritten(content: string, byteMatches: seq<MatchPos>) returns (r: Option<string>)
    requires Forward(byteMatches)
    ensures r == MaskedAsWritten(content, byteMatches)
  {
    if |byteMatches| == 0 {
      MaskedNothing(content);
      return Some(content);
    }

    var a := new MatchPos[|byteMatches|](k requires 0 <= k < |byteMatches| => byteMatches[k]);
    assert a[..] == byteMatches;
    SortByStartDescending(a);
    ForwardPermutation(byteMatches, a[..]);
    var merged := MergeOverlapping(a[..]);
    r := SpliceMasks(content, merged);
    if EndsWithin(byteMatches, |content|) {
      EndsWithinPermutation(byteMatches, a[..], |content|);
      forall p | 0 <= p < |content| ensures r.value[p] == Masked(content, byteMatches)[p] {
        CoveredPermutation(a[..], byteMatches, p);
      }
      assert r.value == Masked(content, byteMatches);
      assert !exists k :: 0 <= k < |byteMatches| && byteMatches[k].end > |content|;
      assert MaskedAsWritten(content, byteMatches) == Some(Masked(content, byteMatches));
    } else {
      if EndsWithin(a[..], |content|) {
        EndsWithinPermutation(a[..], byteMatches, |content|);
      }
      var k :| 0 <= k < |byteMatches| && byteMatches[k].end > |content|;
      assert r.None?;
    }
  }

  /** strings.Repeat of a one-rune string. */
  function Repeat(c: char, n: nat): (r: string)
    ensures |r| == n && forall i :: 0 <= i < n ==> r[i] == c
  {
    seq(n, _ => c)
  }

  /** The SafetyMatch records kept for a run of hits, in the same order. */
  function Reports(content: string, ms: seq<MatchPos>): (r: seq<SafetyMatch>)
    requires AllInBounds(content, ms)
    ensures |r| == |ms|
  {
    seq(|ms|, k requires 0 <= k < |ms| => Report(content, ms[k]))
  }

  lemma ReportsSnoc(content: string, ms: seq<MatchPos>, m: MatchPos)
    requires AllInBounds(content, ms) && InBounds(content, m)
    ensures AllInBounds(content, ms + [m])
    ensures Reports(content, ms + [m]) == Reports(content, ms) + [Report(content, m)]
  {
    assert forall k :: 0 <= k < |ms| ==> (ms + [m])[k] == ms[k];
  }

  /** Some hit is of critical severity. */
  predicate AnyCritical(ms: seq<MatchPos>) {
    exists k :: 0 <= k < |ms| && ms[k].severity == Critical
  }

  lemma AnyCriticalSnoc(ms: seq<MatchPos>, m: MatchPos)
    ensures AnyCritical(ms + [m]) <==> AnyCritical(ms) || m.severity == Critical
  {
    if AnyCritical(ms) {
      var k :| 0 <= k < |ms| && ms[k].severity == Critical;
      assert (ms + [m])[k] == ms[k];
    }
    if m.severity == Critical {
      assert (ms + [m])[|ms|] == m;
    }
    if AnyCritical(ms + [m]) {
      var k :| 0 <= k < |ms + [m]| && (ms + [m])[k].severity == Critical;
      if k < |ms| {
        assert (ms + [m])[k] == ms[k];
      }
    }
  }

  /** What CheckContent has gathered after a run of hits: the flag, the escalation
      bit and the match records all follow from the hits themselves. */
  predicate Tracked(content: string, matches: seq<MatchPos>, flagged: bool, escalate: bool, reports: seq<SafetyMatch>) {
    && AllInBounds(content, matches)
    && flagged == (|matches| > 0)
    && escalate == AnyCritical(matches)
    && reports == Reports(content, matches)
  }

  /** The body of CheckContent's outer loop: records every hit of one pattern. */
  method RecordPattern(content: string, scan: PatternScan, matches: seq<MatchPos>, flagged: bool, escalate: bool, reports: seq<SafetyMatch>)
    returns (matches': seq<MatchPos>, flagged': bool, escalate': bool, reports': seq<SafetyMatch>)
    requires Tracked(content, matches, flagged, escalate, reports)
    requires forall j :: 0 <= j < |scan.hits| ==> 0 <= scan.hits[j].start <= scan.hits[j].end <= |content|
    ensures matches' == matches + PatternHits(scan)
    ensures Tracked(content, matches', flagged', escalate', reports')
  {
    matches', flagged', escalate', reports' := matches, flagged, escalate, reports;
    var pattern := scan.pattern;
    var allMatches := scan.hits;
    for j := 0 to |allMatches|
      invariant matches' == matches + PatternHits(scan)[..j]
      invariant Tracked(content, matches', flagged', escalate', reports')
    {
      var hit := allMatches[j];
      var pos := MatchPos(hit.start, hit.end, pattern.category, pattern.severity);
      assert PatternHits(scan)[..j + 1] == PatternHits(scan)[..j] + [pos];
      flagged' := true;
      if pattern.severity == Critical {
        escalate' := true;
      }
      assert InBounds(content, pos);
      var matchText := content[hit.start..hit.end];
      AnyCriticalSnoc(matches', pos);
      ReportsSnoc(content, matches', pos);
      reports' := reports' + [SafetyMatch(pattern.category, pattern.severity, matchText, hit.start, hit.end)];
      matches' := matches' + [pos];
    }
    assert PatternHits(scan)[..|allMatches|] == PatternHits(scan);
  }

  /** CheckContent: blank content is never flagged; otherwise every hit is
      recorded, the result is flagged exactly when there is a hit, escalation is
      required exactly when some hit is critical, and the masked text is the
      masking of the hits. */
  method CheckContent(content: string, scans: seq<PatternScan>) returns (result: SafetyResult)
    requires ScansInBounds(content, scans)
    ensures TrimSpace(content) == "" ==> result == SafetyResult(false, content, [], false)
    ensures TrimSpace(content) != "" ==>
      && AllInBounds(content, Hits(scans))
      && result.flagged == (|Hits(scans)| > 0)
      && result.requiresEscalation == AnyCritical(Hits(scans))
      && result.matches == Reports(content, Hits(scans))
      && result.maskedContent == Masked(content, Hits(scans))
    ensures !result.flagged ==> result.maskedContent == content
  {
    result := SafetyResult(false, content, [], false);
    if TrimSpace(content) == "" {
      return;
    }

    var flagged, escalate, reports := false, false, [];
    var matches: seq<MatchPos> := [];
    for i := 0 to |scans|
      invariant matches == Hits(scans[..i])
      invariant Tracked(content, matches, flagged, escalate, reports)
    {
      assert scans[..i + 1][..i] == scans[..i];
      matches, flagged, escalate, reports := RecordPattern(content, scans[i], matches, flagged, escalate, reports);
    }
    assert scans[..|scans|] == scans;

    result := SafetyResult(flagged, content, reports, escalate);
    if flagged {
      var masked := MaskContent(content, matches);
      result := result.(maskedContent := masked);
    } else {
      MaskedNothing(content);
    }
  }

  // ---------------------------------------------------------------------------
  // Byte offsets and rune indices

  /** The index of the rune whose UTF-8 encoding starts at byte offset `b` of `s`
      (for an offset inside a rune: the rune after it). */
  function RuneIndexAt(s: string, b: int): (k: nat)
    ensures k <= |s|
  {
    if s == [] || b <= 0 then 0 else 1 + RuneIndexAt(s[1..], b - RuneWidth(s[0]))
  }

  lemma {:induction false} Utf8LengthCons(c: char, t: string)
    ensures Utf8Length([c] + t) == RuneWidth(c) + Utf8Length(t)
  {
    if t != [] {
      var t' := t[..|t| - 1];
      assert ([c] + t)[..|[c] + t| - 1] == [c] + t';
      Utf8LengthCons(c, t');
    } else {
      assert [c] + t == [c];
      assert [c][..0] == [];
    }
  }

  /** A byte offset that begins rune `k` converts back to `k`. */
  lemma {:induction false} RuneIndexAtBoundary(s: string, k: nat)
    requires k <= |s|
    ensures RuneIndexAt(s, Utf8Length(s[..k])) == k
  {
    if k > 0 {
      assert s[..k] == [s[0]] + s[1..][..k - 1];
      Utf8LengthCons(s[0], s[1..][..k - 1]);
      RuneIndexAtBoundary(s[1..], k - 1);
    }
  }

  /** A hit whose offsets are byte offsets, moved to rune indices. */
  function ToRunePos(content: string, m: MatchPos): (r: MatchPos)
    ensures r.category == m.category && r.severity == m.severity
    ensures InBounds(content, r) <== m.start <= m.end
  {
    var r := m.(start := RuneIndexAt(content, m.start), end := RuneIndexAt(content, m.end));
    if m.start <= m.end then RuneIndexAtMonotone(content, m.start, m.end); r else r
  }

  lemma {:induction false} RuneIndexAtMonotone(s: string, b1: int, b2: int)
    requires b1 <= b2
    ensures RuneIndexAt(s, b1) <= RuneIndexAt(s, b2)
  {
    if s != [] && b1 > 0 {
      RuneIndexAtMonotone(s[1..], b1 - RuneWidth(s[0]), b2 - RuneWidth(s[0]));
    }
  }

  /** maskContent as the source writes it: the byte offsets FindAllStringIndex
      reports index the rune slice directly. A hit ending past the last rune
      makes the slice expression `runes[match.end:]` panic (None); merged spans
      end where their last hit ends, so that happens exactly when some hit does. */
  function MaskedAsWritten(content: string, byteMatches: seq<MatchPos>): (r: Option<string>)
    ensures r.None? <==> exists k :: 0 <= k < |byteMatches| && byteMatches[k].end > |content|
  {
    if exists k :: 0 <= k < |byteMatches| && byteMatches[k].end > |content| then None
    else Some(Masked(content, byteMatches))
  }

  /** maskContent with each byte offset first moved to its rune index. */
  function MaskedByBytes(content: string, byteMatches: seq<MatchPos>): string {
    Masked(content, seq(|byteMatches|, k requires 0 <= k < |byteMatches| => ToRunePos(content, byteMatches[k])))
  }

  /** In "\u00e9ab" the word "a" sits at bytes [2, 3), which is rune 1. Used as a
      rune index, offset 2 masks "b" and leaves "a" readable; converted, the mask
      falls on "a". */
  lemma MaskedAsWrittenShiftsMask()
    ensures var content := "\U{E9}ab";
      var hit := MatchPos(2, 3, SelfHarm, Critical);
      && Utf8Length(content[..1]) == 2 && Utf8Length(content[..2]) == 3
      && MaskedAsWritten(content, [hit]) == Some("\U{E9}a" + [MaskRune])
      && MaskedByBytes(content, [hit]) == "\U{E9}" + [MaskRune] + "b"
  {
    var content := "\U{E9}ab";
    var hit := MatchPos(2, 3, SelfHarm, Critical);
    assert content[..1] == "\U{E9}" && content[..2] == "\U{E9}a";
    assert "\U{E9}"[..0] == [] && "\U{E9}a"[..1] == "\U{E9}";
    assert !([hit][0].end > |content|);
    CoveredSingle(hit, 0);
    CoveredSingle(hit, 1);
    CoveredSingle(hit, 2);
    assert Masked(content, [hit]) == "\U{E9}a" + [MaskRune];
    var conv := ToRunePos(content, hit);
    assert content[1..] == "ab" && "ab"[1..] == "b";
    assert conv == MatchPos(1, 2, SelfHarm, Critical);
    var cs := seq(1, k requires 0 <= k < 1 => ToRunePos(content, [hit][k]));
    assert cs == [conv];
    CoveredSingle(conv, 0);
    CoveredSingle(conv, 1);
    CoveredSingle(conv, 2);
  }

  /** In "\u00e9\u00e9harm" the word "harm" sits at bytes [4, 8) but the text has
      only six runes: as written, slicing the rune slice at 8 panics; converted,
      the mask falls on "harm". */
  lemma MaskedAsWrittenPanics()
    ensures var content := "\U{E9}\U{E9}harm";
      var hit := MatchPos(4, 8, SelfHarm, Critical);
      && |content| == 6 && Utf8Length(content) == 8
      && MaskedAsWritten(content, [hit]).None?
      && MaskedByBytes(content, [hit]) == "\U{E9}\U{E9}" + Repeat(MaskRune, 4)
  {
    var content := "\U{E9}\U{E9}harm";
    var hit := MatchPos(4, 8, SelfHarm, Critical);
    assert content[..1][..0] == content[..0];
    assert Utf8Length(content[..1]) == 2;
    assert content[..2][..1] == content[..1];
    assert Utf8Length(content[..2]) == 4;
    assert content[..3][..2] == content[..2];
    assert Utf8Length(content[..3]) == 5;
    assert content[..4][..3] == content[..3];
    assert Utf8Length(content[..4]) == 6;
    assert content[..5][..4] == content[..4];
    assert Utf8Length(content[..5]) == 7;
    assert content[..6][..5] == content[..5];
    assert Utf8Length(content[..6]) == 8;
    assert content[..6] == content;
    assert [hit][0].end > |content|;
    MaskedByBytesMasksHit(content, 2, 6, hit);
    assert content[..2] == "\U{E9}\U{E9}" && content[6..] == [];
  }

  /** Converted, a hit over the bytes of runes `i` to `j` masks exactly those runes
      and keeps the rest. */
  lemma MaskedByBytesMasksHit(content: string, i: nat, j: nat, m: MatchPos)
    requires i <= j <= |content|
    requires m.start == Utf8Length(content[..i]) && m.end == Utf8Length(content[..j])
    ensures MaskedByBytes(content, [m]) == content[..i] + Repeat(MaskRune, j - i) + content[j..]
  {
    RuneIndexAtBoundary(content, i);
    RuneIndexAtBoundary(content, j);
    var cs := seq(1, k requires 0 <= k < 1 => ToRunePos(content, [m][k]));
    assert cs == [m.(start := i, end := j)];
    forall p | 0 <= p < |content| ensures Covered(cs, p) <==> i <= p < j {
      CoveredSingle(m.(start := i, end := j), p);
    }
  }

  /** GetCategoryDescription. */
  function CategoryDescription(category: string): (d: string)
    ensures d == "Safety concern" <==>
      category !in {SelfHarm, HarmToOthers, Doxxing, SubstanceAbuse, EatingDisorder, DomesticAbuse, SexualHarm}
  {
    if category == SelfHarm then "Self-harm or suicidal ideation"
    else if category == HarmToOthers then "Threats of harm to others"
    else if category == Doxxing then "Personal information disclosure"
    else if category == SubstanceAbuse then "Substance abuse concern"
    else if category == EatingDisorder then "Eating disorder behavior"
    else if category == DomesticAbuse then "Domestic violence"
    else if category == SexualHarm then "Sexual assault or abuse"
    else "Safety concern"
  }

  /** Different named categories get different descriptions. */
  lemma CategoryDescriptionInjective(c1: string, c2: string)
    requires c1 in {SelfHarm, HarmToOthers, Doxxing, SubstanceAbuse, EatingDisorder, DomesticAbuse, SexualHarm}
    requires CategoryDescription(c1) == CategoryDescription(c2)
    ensures c1 == c2
  {
  }
}
