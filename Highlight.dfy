/**
  The highlighting step of `AudioAnalyzerApp.process_audio` in
  audio_analyzer.py: every case-insensitive occurrence of an enabled topic
  name in the transcription is meant to be wrapped in "**" markers.

  The code lower-cases the text once per topic and then inserts markers into
  the text while it keeps searching the lower-cased copy taken before the
  first insertion. `StaleHighlight` and `HighlightTopic` model that code as
  written; `Greedy` and `HighlightTopicCorrected` model the evident intent, a
  search that follows the text as it grows.
 */
module Highlight {
  import opened Text

  /** A piece of text between the two markers. */
  function Marked(piece: string): (r: string)
    ensures |r| == |piece| + 4
  {
    "**" + piece + "**"
  }

  /** One insertion: `h[pos..pos + n]` wrapped in "**" ... "**". */
  function Wrap(h: string, pos: nat, n: nat): (r: string)
    requires pos + n <= |h|
    ensures |r| == |h| + 4
  {
    h[..pos] + Marked(h[pos..pos + n]) + h[pos + n..]
  }

  /** An insertion keeps what lies before and after the wrapped piece. */
  lemma WrapParts(h: string, pos: nat, n: nat)
    requires pos + n <= |h|
    ensures var r := Wrap(h, pos, n);
            && r[..pos] == h[..pos]
            && r[pos..pos + n + 4] == Marked(h[pos..pos + n])
            && r[pos + n + 4..] == h[pos + n..]
  {
  }

  /** What the wrapped text holds up to the closing marker. */
  lemma WrapFront(h: string, pos: nat, n: nat)
    requires pos + n <= |h|
    ensures Wrap(h, pos, n)[..pos + n + 4] == h[..pos] + Marked(h[pos..pos + n])
  {
    var w := Wrap(h, pos, n);
    WrapParts(h, pos, n);
    assert w[..pos + n + 4] == w[..pos] + w[pos..pos + n + 4];
  }

  // ---------------------------------------------------------------------
  // As written: positions are searched in the lower-cased copy `lowered`
  // taken before any insertion, and the search resumes 4 characters past
  // the end of the match.

  /** The positions the as-written loop finds, in the coordinates of `lowered`. */
  function StaleHits(lowered: string, t: string, start: nat): seq<nat>
    decreases |lowered| - start
  {
    var p := Find(lowered, t, start);
    if p == -1 then [] else [p] + StaleHits(lowered, t, p + |t| + 4)
  }

  /** `ps` lists occurrences of `t` in `lowered`, none before `lo`, each at
      least `gap` past the one before it. */
  predicate SpacedOccurrences(lowered: string, t: string, lo: int, gap: nat, ps: seq<nat>) {
    && (forall k :: 0 <= k < |ps| ==> lo <= ps[k] && OccursAt(lowered, t, ps[k]))
    && (forall k :: 0 < k < |ps| ==> ps[k - 1] + gap <= ps[k])
  }

  lemma SpacedCons(lowered: string, t: string, lo: int, gap: nat, p: nat, rest: seq<nat>)
    requires lo <= p && OccursAt(lowered, t, p)
    requires SpacedOccurrences(lowered, t, p + gap, gap, rest)
    ensures SpacedOccurrences(lowered, t, lo, gap, [p] + rest)
  {
    var ps := [p] + rest;
    forall k | 0 < k < |ps| ensures ps[k - 1] + gap <= ps[k] {
      assert ps[k] == rest[k - 1];
      if k > 1 {
        assert ps[k - 1] == rest[k - 2];
      }
    }
  }

  /** Every position the as-written loop finds is an occurrence in the
      unmodified lower-cased copy, and consecutive ones lie at least
      `|t| + 4` apart. */
  lemma {:induction false} StaleHitsAreOccurrences(lowered: string, t: string, start: nat)
    decreases |lowered| - start
    ensures SpacedOccurrences(lowered, t, start, |t| + 4, StaleHits(lowered, t, start))
  {
    var p := Find(lowered, t, start);
    FindFound(lowered, t, start);
    if p == -1 {
      assert StaleHits(lowered, t, start) == [];
    } else {
      var rest := StaleHits(lowered, t, p + |t| + 4);
      StaleHitsAreOccurrences(lowered, t, p + |t| + 4);
      SpacedCons(lowered, t, start, |t| + 4, p, rest);
      assert StaleHits(lowered, t, start) == [p] + rest;
    }
  }

  /** The text the as-written loop produces from `h`, searching `lowered` from `start`. */
  function StaleHighlight(h: string, lowered: string, t: string, start: nat): string
    requires |lowered| <= |h|
    decreases |lowered| - start
  {
    var p := Find(lowered, t, start);
    if p == -1 then h else StaleHighlight(Wrap(h, p, |t|), lowered, t, p + |t| + 4)
  }

  /** Every insertion adds exactly four characters. */
  lemma {:induction false} StaleLength(h: string, lowered: string, t: string, start: nat)
    requires |lowered| <= |h|
    decreases |lowered| - start
    ensures |StaleHighlight(h, lowered, t, start)| == |h| + 4 * |StaleHits(lowered, t, start)|
  {
    var p := Find(lowered, t, start);
    if p != -1 {
      StaleLength(Wrap(h, p, |t|), lowered, t, p + |t| + 4);
    }
  }

  /** Insertions happen at or after the search position, so what lies before
      it is never touched again. */
  lemma {:induction false} StalePrefix(h: string, lowered: string, t: string, start: nat, q: nat)
    requires |lowered| <= |h| && q <= start && q <= |h|
    decreases |lowered| - start
    ensures q <= |StaleHighlight(h, lowered, t, start)|
    ensures StaleHighlight(h, lowered, t, start)[..q] == h[..q]
  {
    StaleLength(h, lowered, t, start);
    var p := Find(lowered, t, start);
    if p != -1 {
      var w := Wrap(h, p, |t|);
      WrapParts(h, p, |t|);
      assert w[..q] == w[..p][..q];
      StalePrefix(w, lowered, t, p + |t| + 4, q);
    }
  }

  /** One turn of the as-written loop: without a further occurrence the text
      is final, otherwise the loop goes on from the wrapped text. */
  lemma StaleTurn(h: string, lowered: string, t: string, start: nat)
    requires |lowered| <= |h|
    ensures var p := Find(lowered, t, start);
            && (p == -1 ==> StaleHighlight(h, lowered, t, start) == h)
            && (p != -1 ==>
                  && p + |t| <= |h|
                  && StaleHighlight(h, lowered, t, start)
                       == StaleHighlight(Wrap(h, p, |t|), lowered, t, p + |t| + 4))
  {
  }

  /** The inner `while True` loop of process_audio for one enabled topic,
      applied to `text`, the highlighted text so far. */
  method HighlightTopic(text: string, topic: string) returns (h: string)
    ensures h == StaleHighlight(text, Lower(text), Lower(topic), 0)
  {
    var topicLower := Lower(topic);
    var textLower := Lower(text);
    ghost var whole := StaleHighlight(text, textLower, topicLower, 0);
    h := text;
    var start: nat := 0;
    while true
      invariant |textLower| <= |h|
      invariant start <= |textLower| + 4
      invariant StaleHighlight(h, textLower, topicLower, start) == whole
      decreases |textLower| + 4 - start
    {
      var pos := Find(textLower, topicLower, start);
      StaleTurn(h, textLower, topicLower, start);
      if pos == -1 {
        break;
      }
      h := Wrap(h, pos, |topicLower|);
      start := pos + |topic| + 4;
    }
  }

  /** The first insertion of the as-written loop wraps exactly the first
      occurrence found and keeps the text before it. */
  lemma StaleFirst(h: string, lowered: string, t: string, start: nat, p: int)
    requires |lowered| <= |h| && p == Find(lowered, t, start) && p != -1
    ensures p + |t| + 4 <= |StaleHighlight(h, lowered, t, start)|
    ensures StaleHighlight(h, lowered, t, start)[..p + |t| + 4]
              == h[..p] + Marked(h[p..p + |t|])
  {
    var q := p + |t| + 4;
    var w := Wrap(h, p, |t|);
    StaleTurn(h, lowered, t, start);
    StalePrefix(w, lowered, t, q, q);
    WrapFront(h, p, |t|);
  }

  /** What the as-written loop does for one topic: without an occurrence the
      text is unchanged; otherwise the first occurrence is wrapped exactly, the
      text before it is kept, later hits are occurrences in the unmodified
      lower-cased copy, and the text grows by four characters per hit. */
  lemma HighlightTopicMeaning(text: string, topic: string)
    ensures var r := StaleHighlight(text, Lower(text), Lower(topic), 0);
            var hits := StaleHits(Lower(text), Lower(topic), 0);
            && |r| == |text| + 4 * |hits|
            && ((forall i :: !OccursAt(Lower(text), Lower(topic), i)) ==> r == text)
            && (forall k :: 0 <= k < |hits| ==> OccursAt(Lower(text), Lower(topic), hits[k]))
            && (hits != [] ==>
                  var p := hits[0];
                  && p == Find(Lower(text), Lower(topic), 0)
                  && p + |topic| <= |text|
                  && Lower(text[p..p + |topic|]) == Lower(topic)
                  && r[..p + |topic| + 4] == text[..p] + Marked(text[p..p + |topic|]))
  {
    var L, t := Lower(text), Lower(topic);
    StaleLength(text, L, t, 0);
    StaleHitsAreOccurrences(L, t, 0);
    FindFound(L, t, 0);
    var p := Find(L, t, 0);
    if p != -1 {
      StaleFirst(text, L, t, 0, p);
      LowerSlice(text, p, p + |t|);
    }
  }

  // ---------------------------------------------------------------------
  // Corrected: the lower-cased copy is taken afresh after each insertion,
  // which is what resuming 4 characters further on presupposes.

  /** The intended result: `s[from..]` with every leftmost, non-overlapping
      occurrence of `t` in `lowered` (the lower-cased `s`) wrapped in markers. */
  function Greedy(s: string, lowered: string, t: string, from: nat): string
    requires |t| > 0 && from <= |s| && |lowered| == |s|
    decreases |s| - from
  {
    var p := Find(lowered, t, from);
    if p == -1 then s[from..]
    else s[from..p] + Marked(s[p..p + |t|]) + Greedy(s, lowered, t, p + |t|)
  }

  /** The positions `Greedy` wraps. */
  function GreedyHits(lowered: string, t: string, from: nat): seq<nat>
    requires |t| > 0
    decreases |lowered| - from
  {
    var p := Find(lowered, t, from);
    if p == -1 then [] else [p] + GreedyHits(lowered, t, p + |t|)
  }

  /** Every wrapped position is an occurrence, and wrapped occurrences do not
      overlap. */
  lemma {:induction false} GreedyHitsAreOccurrences(lowered: string, t: string, from: nat)
    requires |t| > 0
    decreases |lowered| - from
    ensures SpacedOccurrences(lowered, t, from, |t|, GreedyHits(lowered, t, from))
  {
    var p := Find(lowered, t, from);
    FindFound(lowered, t, from);
    if p != -1 {
      GreedyHitsAreOccurrences(lowered, t, p + |t|);
      SpacedCons(lowered, t, from, |t|, p, GreedyHits(lowered, t, p + |t|));
    }
  }

  /** The intended result grows by four characters per wrapped occurrence. */
  lemma {:induction false} GreedyLength(s: string, lowered: string, t: string, from: nat)
    requires |t| > 0 && from <= |s| && |lowered| == |s|
    decreases |s| - from
    ensures |Greedy(s, lowered, t, from)| == |s| - from + 4 * |GreedyHits(lowered, t, from)|
  {
    var p := Find(lowered, t, from);
    if p != -1 {
      GreedyLength(s, lowered, t, p + |t|);
      GreedyUnfold(s, lowered, t, from, p);
    }
  }

  /** Index `i` lies inside one of the `n`-character pieces starting at `hs`. */
  predicate Covered(hs: seq<nat>, n: nat, i: nat) {
    exists k :: 0 <= k < |hs| && hs[k] <= i < hs[k] + n
  }

  /** No occurrence is missed: every occurrence of `t` at or after `from`
      lies inside one of the wrapped occurrences. */
  lemma {:induction false} GreedyCovers(lowered: string, t: string, from: nat, i: nat)
    requires |t| > 0 && from <= i && OccursAt(lowered, t, i)
    decreases |lowered| - from
    ensures Covered(GreedyHits(lowered, t, from), |t|, i)
  {
    var p := Find(lowered, t, from);
    assert p != -1 && p <= i by {
      FindLeast(lowered, t, from);
    }
    var rest := GreedyHits(lowered, t, p + |t|);
    var hs := GreedyHits(lowered, t, from);
    assert hs == [p] + rest;
    if i < p + |t| {
      assert hs[0] <= i < hs[0] + |t|;
    } else {
      GreedyCovers(lowered, t, p + |t|, i);
      var k :| 0 <= k < |rest| && rest[k] <= i < rest[k] + |t|;
      assert hs[k + 1] == rest[k];
    }
  }

  /** A text that ends in `text[from..]` from `start` on is searched, from
      `start`, as `text` is searched from `from`. */
  lemma FindAligned(h: string, text: string, t: string, start: nat, from: nat)
    requires start <= |h| && from <= |text| && h[start..] == text[from..]
    ensures var p := Find(Lower(text), t, from);
            Find(Lower(h), t, start) == if p == -1 then -1 else start + (p - from)
  {
    assert h == h[..start] + h[start..];
    assert text == text[..from] + text[from..];
    LowerConcat(h[..start], h[start..]);
    LowerConcat(text[..from], text[from..]);
    FindShift(Lower(h[..start]), Lower(h[start..]), t, 0);
    FindShift(Lower(text[..from]), Lower(text[from..]), t, 0);
  }

  /** Slicing a tail is slicing the whole, shifted. */
  lemma TailSlice(h: string, start: nat, x: nat, y: nat)
    requires start + y <= |h| && x <= y
    ensures h[start + x..start + y] == h[start..][x..y]
  {
  }

  /** Wrapping the occurrence at `p` of the text's tail, seen at the matching
      position of `h`. */
  lemma WrapAligned(h: string, text: string, start: nat, from: nat, p: nat, n: nat)
    requires start <= |h| && from <= p && p + n <= |text| && h[start..] == text[from..]
    ensures var pos := start + (p - from);
            && pos + n <= |h|
            && Wrap(h, pos, n)[..pos + n + 4]
                 == h[..start] + (text[from..p] + Marked(text[p..p + n]))
            && Wrap(h, pos, n)[pos + n + 4..] == text[p + n..]
  {
    var d := p - from;
    var pos := start + d;
    assert |h| - start == |text| - from;
    TailSlice(h, start, 0, d);
    TailSlice(text, from, 0, d);
    TailSlice(h, start, d, d + n);
    TailSlice(text, from, d, d + n);
    TailSlice(h, start, d + n, |h| - start);
    TailSlice(text, from, d + n, |text| - from);
    WrapParts(h, pos, n);
    WrapFront(h, pos, n);
    assert h[..pos] == h[..start] + text[from..p];
    assert h[pos..pos + n] == text[p..p + n];
    AppendAssoc(h[..start], text[from..p], Marked(text[p..p + n]));
  }

  /** `Greedy` copies the text up to the next occurrence, wraps it and goes on
      right after it. */
  lemma GreedyUnfold(s: string, lowered: string, t: string, from: nat, p: int)
    requires |t| > 0 && from <= |s| && |lowered| == |s|
    requires p == Find(lowered, t, from) && p != -1
    ensures from <= p && p + |t| <= |s|
    ensures Greedy(s, lowered, t, from)
              == (s[from..p] + Marked(s[p..p + |t|])) + Greedy(s, lowered, t, p + |t|)
  {
  }

  /** The state of the intended loop: `h` agrees with the text from `start`
      on, as `text` from `from` on, and what precedes `start` followed by the
      intended result for the rest of the text is the whole intended result. */
  predicate Sweeping(h: string, text: string, lowered: string, t: string,
                     start: nat, from: nat, whole: string)
  {
    && |t| > 0 && from <= |text| && start <= |h| && |lowered| == |text|
    && h[start..] == text[from..]
    && h[..start] + Greedy(text, lowered, t, from) == whole
  }

  /** Before the first turn, nothing has been swept. */
  lemma SweepingStart(text: string, lowered: string, t: string)
    requires |t| > 0 && |lowered| == |text|
    ensures Sweeping(text, text, lowered, t, 0, 0, Greedy(text, lowered, t, 0))
  {
    assert text[..0] + Greedy(text, lowered, t, 0) == Greedy(text, lowered, t, 0);
  }

  /** One turn of the intended loop keeps its invariant: once the occurrence
      at `p` is wrapped, at the matching position `pos` of `h`, the loop state
      describes the same intended result. */
  lemma GreedyStep(h: string, text: string, lowered: string, t: string, start: nat, from: nat,
                   whole: string, p: int, pos: int)
    requires Sweeping(h, text, lowered, t, start, from, whole)
    requires p == Find(lowered, t, from) && p != -1 && pos == start + (p - from)
    ensures pos + |t| <= |h| && p + |t| <= |text|
    ensures Sweeping(Wrap(h, pos, |t|), text, lowered, t, pos + |t| + 4, p + |t|, whole)
  {
    var n := |t|;
    GreedyUnfold(text, lowered, t, from, p);
    var piece := text[from..p] + Marked(text[p..p + n]);
    var rest := Greedy(text, lowered, t, p + n);
    assert Greedy(text, lowered, t, from) == piece + rest;
    WrapAligned(h, text, start, from, p, n);
    var w := Wrap(h, pos, n);
    assert w[..pos + n + 4] == h[..start] + piece;
    AppendAssoc(h[..start], piece, rest);
    assert w[..pos + n + 4] + rest == whole;
  }

  /** One turn of the intended loop, as a whole: searching the current text
      from `start` finds the next intended occurrence, shifted, or nothing
      exactly when the intended result has been reached. */
  lemma CorrectedTurn(h: string, text: string, lowered: string, t: string, n: nat,
                      start: nat, from: nat, whole: string, hLower: string, pos: int, p: int)
    requires lowered == Lower(text) && Sweeping(h, text, lowered, t, start, from, whole)
    requires n == |t| && hLower == Lower(h) && pos == Find(hLower, t, start) && p == Find(lowered, t, from)
    ensures pos == -1 <==> p == -1
    ensures pos == -1 ==> h == whole
    ensures pos != -1 ==>
              && start <= pos && from <= p && p + n <= |text| && pos + n <= |h|
              && Sweeping(Wrap(h, pos, n), text, lowered, t, pos + n + 4, p + n, whole)
  {
    FindAligned(h, text, t, start, from);
    if p == -1 {
      SweepDone(h, text, lowered, t, start, from, whole);
    } else {
      GreedyStep(h, text, lowered, t, start, from, whole, p, pos);
    }
  }

  /** When nothing is left to find, the current text is the intended result. */
  lemma SweepDone(h: string, text: string, lowered: string, t: string, start: nat, from: nat,
                  whole: string)
    requires Sweeping(h, text, lowered, t, start, from, whole) && Find(lowered, t, from) == -1
    ensures h == whole
  {
    assert Greedy(text, lowered, t, from) == text[from..];
    assert h == h[..start] + h[start..];
  }

  /** The loop as intended: the lower-cased text is recomputed after each
      insertion. Topic names are never empty (both the built-in ones and those
      `add_custom_topic` accepts). */
  method HighlightTopicCorrected(text: string, topic: string) returns (h: string)
    requires |topic| > 0
    ensures h == Greedy(text, Lower(text), Lower(topic), 0)
  {
    var topicLower := Lower(topic);
    var n := |topicLower|;
    ghost var lowered := Lower(text);
    ghost var whole := Greedy(text, lowered, topicLower, 0);
    h := text;
    var start: nat := 0;
    ghost var from: nat := 0;
    SweepingStart(text, lowered, topicLower);
    while true
      invariant Sweeping(h, text, lowered, topicLower, start, from, whole)
      decreases |text| - from
    {
      var found, next, nextStart, nextFrom := CorrectedStep(h, topicLower, start, text, lowered, from, whole);
      if !found {
        break;
      }
      h, start, from := next, nextStart, nextFrom;
    }
  }

  /** One turn of the intended loop: search the current lower-cased text
      from `start`; on a hit, wrap it and resume after the inserted markers. */
  method CorrectedStep(h: string, t: string, start: nat, ghost text: string, ghost lowered: string,
                       ghost from: nat, ghost whole: string)
    returns (found: bool, next: string, nextStart: nat, ghost nextFrom: nat)
    requires lowered == Lower(text) && Sweeping(h, text, lowered, t, start, from, whole)
    ensures found <==> Find(Lower(h), t, start) != -1
    ensures !found ==> h == whole
    ensures found ==> from < nextFrom && Sweeping(next, text, lowered, t, nextStart, nextFrom, whole)
  {
    var textLower := Lower(h);
    var pos := Find(textLower, t, start);
    ghost var p := Find(lowered, t, from);
    CorrectedTurn(h, text, lowered, t, |t|, start, from, whole, textLower, pos, p);
    if pos == -1 {
      return false, h, start, from;
    }
    found, next, nextStart, nextFrom := true, Wrap(h, pos, |t|), pos + |t| + 4, p + |t|;
  }

  /** The discrepancy, on the smallest input: in "x x" the as-written loop
      wraps only the first "x", because the search resumes at index 5 of the
      three-character unmodified copy; the intended result wraps both. */
  lemma StaleHighlightMissesSecondOccurrence()
    ensures OccursAt("x x", "x", 2)
    ensures StaleHits(Lower("x x"), Lower("x"), 0) == [0]
    ensures StaleHighlight("x x", Lower("x x"), Lower("x"), 0) == "**x** x"
    ensures GreedyHits(Lower("x x"), Lower("x"), 0) == [0, 2]
    ensures Greedy("x x", Lower("x x"), Lower("x"), 0) == "**x** **x**"
  {
    SampleLower();
    SampleFinds();
    var s := "x x";
    assert StaleHits(s, "x", 5) == [];
    assert StaleHits(s, "x", 0) == [0];
    assert Wrap(s, 0, 1) == "**x** x";
    assert StaleHighlight("**x** x", s, "x", 5) == "**x** x";
    assert GreedyHits(s, "x", 3) == [];
    assert GreedyHits(s, "x", 1) == [2];
    assert Greedy(s, s, "x", 3) == "";
    assert Greedy(s, s, "x", 1) == " **x**";
  }

  lemma SampleLower()
    ensures Lower("x x") == "x x" && Lower("x") == "x"
  {
    assert "x x"[1..] == " x";
    assert " x"[1..] == "x";
    assert "x"[1..] == [];
  }

  lemma SampleFinds()
    ensures Find("x x", "x", 0) == 0 && Find("x x", "x", 1) == 2
    ensures Find("x x", "x", 3) == -1 && Find("x x", "x", 5) == -1
  {
    var s := "x x";
    assert s[0..1] == "x";
    assert s[1..2] == [s[1]] && s[1] == ' ';
    assert s[2..3] == "x";
  }
}
