/**
  The two sweeps of raio.py over (stored sentence, enabled topic) pairs,
  stated as functions: `search_sensitive_topics`, which builds the `matches`
  list, the per-sentence `topics_found` and the "nothing found" notice, and
  the findings part of `generate_pdf_report`. The loops that compute them
  are in `Raio.RaioApp`.
 */
module Sweeps {
  import opened Wrappers
  import opened Text
  import opened TopicMatching
  import opened Registry
  import opened FileHash

  /** A stored sentence: the stripped segment text and its start and end
      times in seconds. */
  datatype Sentence = Sentence(text: string, start: real, end: real)

  /** One entry of `matches`: the topic, the sentence, the topic's related
      words joined by ", ", the words detected and the topic's colour. */
  datatype Match = Match(topic: string, sentence: Sentence, relatedWords: string,
                         detected: set<string>, color: string)

  /** One entry of a sentence's `topics_found`. */
  datatype Found = Found(topic: string, words: set<string>)

  /** The frame drawn for one sentence, with the topics found in it. */
  datatype Frame = Frame(sentence: Sentence, found: seq<Found>)

  /** The results area after a search. */
  datatype Pane = Listing(matches: seq<Match>) | Notice(text: string)

  const NothingDetected: string := "Nenhum tema sensível detectado."

  /** What `search_sensitive_topics` leaves behind: an error box when
      nothing was transcribed, the frames and results area, or the
      exception that ended the sweep together with the frames drawn before
      it (the results area was cleared and stays empty). */
  datatype SearchOutcome =
    | NoTranscript
    | Searched(frames: seq<Frame>, pane: Pane)
    | Crashed(frames: seq<Frame>, fault: Fault)

  /** `find_sensitive_content(text, topic)`: the flag and the words found,
      or the exception the lookup raised. */
  type Finder = (string, string) -> Result<(bool, set<string>)>

  /** The session's `find_sensitive_content`, for its language pipeline and
      its `topic_related_words`. */
  function SessionFinder(nlp: Nlp, related: map<string, seq<string>>): Finder
  {
    (text, topic) => SensitiveContentFor(nlp, related, text, topic)
  }

  /** The session's lookups raise only `IndexError`, and flag exactly the
      sentences in which some word was found. */
  lemma SessionFinderMeaning(nlp: Nlp, related: map<string, seq<string>>, text: string, topic: string)
    ensures var r := SessionFinder(nlp, related)(text, topic);
            && (r.Err? ==> r.fault == IndexError)
            && (r.Ok? ==> (r.value.0 <==> r.value.1 != {}))
  {
    SensitiveContentFails(nlp, related, text, topic);
    SensitiveContentFlag(nlp, related, text, topic);
  }

  /** The pair (s, topic) matches: the topic is ticked and its lookup
      succeeds with the flag set. */
  predicate Hit(find: Finder, reg: Registry, s: Sentence, topic: string) {
    IsEnabled(reg, topic) && find(s.text, topic).Ok? && find(s.text, topic).value.0
  }

  // ---------------------------------------------------------------------
  // search_sensitive_topics

  /** The body of the inner loop for one topic: nothing for an unticked or
      unflagged topic, the exception of the lookup, a `KeyError` when
      `topic_related_words[topic]` or `topic_colors[topic]` is missing, or
      the new `matches` entry. */
  function Examine(find: Finder, reg: Registry, s: Sentence, topic: string): Result<Option<Match>>
  {
    if !IsEnabled(reg, topic) then Ok(None)
    else
      match find(s.text, topic)
      case Err(f) => Err(f)
      case Ok(r) =>
        if !r.0 then Ok(None)
        else if topic !in reg.related || topic !in reg.colors then Err(KeyError(topic))
        else Ok(Some(Match(topic, s, Join(", ", reg.related[topic]), r.1, reg.colors[topic])))
  }

  /** A topic is examined without an exception exactly when it is unticked,
      or its lookup succeeds and, if it is flagged, its related words and
      colour exist; the exception is the lookup's or a `KeyError` for the
      topic. An examination yields an entry exactly for a hit, and the entry
      names that topic and sentence, with the words of the lookup. */
  lemma ExamineMeaning(find: Finder, reg: Registry, s: Sentence, topic: string)
    ensures var e := Examine(find, reg, s, topic);
            && (e.Ok? <==> !IsEnabled(reg, topic) ||
                             (find(s.text, topic).Ok? &&
                              (find(s.text, topic).value.0 ==> topic in reg.related && topic in reg.colors)))
            && (e.Err? ==> e.fault == KeyError(topic) ||
                             (find(s.text, topic).Err? && e.fault == find(s.text, topic).fault))
            && (e.Ok? ==> (e.value.Some? <==> Hit(find, reg, s, topic)))
            && (e.Ok? && e.value.Some? ==>
                  && e.value.value.topic == topic && e.value.value.sentence == s
                  && e.value.value.detected == find(s.text, topic).value.1
                  && e.value.value.color == reg.colors[topic])
  {
  }

  /** The inner loop of `search_sensitive_topics` over `names`, the topics in
      insertion order: the `matches` entries of one sentence, or the first
      exception. */
  function SearchTopics(find: Finder, reg: Registry, s: Sentence, names: seq<string>): Result<seq<Match>>
  {
    if names == [] then Ok([])
    else
      match SearchTopics(find, reg, s, names[..|names| - 1])
      case Err(f) => Err(f)
      case Ok(ms) =>
        match Examine(find, reg, s, names[|names| - 1])
        case Err(f) => Err(f)
        case Ok(None) => Ok(ms)
        case Ok(Some(m)) => Ok(ms + [m])
  }

  /** One more topic of the inner loop: the sweep so far, extended by the
      examination of that topic. */
  lemma SearchTopicsSnoc(find: Finder, reg: Registry, s: Sentence, names: seq<string>, j: nat,
                         ms: seq<Match>)
    requires j < |names| && SearchTopics(find, reg, s, names[..j]) == Ok(ms)
    ensures SearchTopics(find, reg, s, names[..j + 1]) ==
              match Examine(find, reg, s, names[j])
              case Err(f) => Err(f)
              case Ok(None) => Ok(ms)
              case Ok(Some(m)) => Ok(ms + [m])
  {
    assert names[..j + 1][..j] == names[..j];
  }

  /** `topics_found` of one sentence, built from its entries. */
  function Founds(ms: seq<Match>): (fs: seq<Found>)
    ensures |fs| == |ms|
    ensures forall k :: 0 <= k < |ms| ==> fs[k].topic == ms[k].topic && fs[k].words == ms[k].detected
  {
    seq(|ms|, k requires 0 <= k < |ms| => Found(ms[k].topic, ms[k].detected))
  }

  /** The outer loop over the stored sentences: a frame per sentence and the
      whole `matches` list, or the first exception. */
  function SearchSentences(find: Finder, reg: Registry, ss: seq<Sentence>): Result<(seq<Frame>, seq<Match>)>
  {
    if ss == [] then Ok(([], []))
    else
      match SearchSentences(find, reg, ss[..|ss| - 1])
      case Err(f) => Err(f)
      case Ok(acc) =>
        var s := ss[|ss| - 1];
        match SearchTopics(find, reg, s, reg.names)
        case Err(f) => Err(f)
        case Ok(ms) => Ok((acc.0 + [Frame(s, Founds(ms))], acc.1 + ms))
  }

  /** `search_sensitive_topics` as a whole. */
  function Search(find: Finder, reg: Registry, sentences: Option<seq<Sentence>>): SearchOutcome
  {
    match sentences
    case None => NoTranscript
    case Some(ss) =>
      match SearchSentences(find, reg, ss)
      case Err(f) => Crashed(FramesDrawn(find, reg, ss), f)
      case Ok(r) => Searched(r.0, if r.1 == [] then Notice(NothingDetected) else Listing(r.1))
  }

  /** The sentence frames on screen when the sweep over `ss` ends: one per
      sentence of a clean sweep, and otherwise one per sentence before the
      first that raises (its frame is drawn only after its topic loop). */
  function FramesDrawn(find: Finder, reg: Registry, ss: seq<Sentence>): seq<Frame>
    decreases |ss|
  {
    if ss == [] then []
    else
      var pre := ss[..|ss| - 1];
      match SearchSentences(find, reg, pre)
      case Err(_) => FramesDrawn(find, reg, pre)
      case Ok(acc) =>
        match SearchTopics(find, reg, ss[|ss| - 1], reg.names)
        case Err(_) => acc.0
        case Ok(ms) => acc.0 + [Frame(ss[|ss| - 1], Founds(ms))]
  }

  /** After a clean sweep the frames on screen are the sweep's frames. */
  lemma FramesDrawnOk(find: Finder, reg: Registry, ss: seq<Sentence>)
    requires SearchSentences(find, reg, ss).Ok?
    ensures FramesDrawn(find, reg, ss) == SearchSentences(find, reg, ss).value.0
  {
    if ss != [] {
      assert SearchSentences(find, reg, ss[..|ss| - 1]).Ok?;
    }
  }

  /** When the first exception comes from sentence `i`, the frames on
      screen are exactly those of the sentences before it, and the sweep
      fails with that sentence's exception. */
  lemma FramesDrawnAt(find: Finder, reg: Registry, ss: seq<Sentence>, i: nat)
    requires i < |ss| && SearchSentences(find, reg, ss[..i]).Ok?
    requires SearchTopics(find, reg, ss[i], reg.names).Err?
    ensures FramesDrawn(find, reg, ss) == SearchSentences(find, reg, ss[..i]).value.0
    ensures SearchSentences(find, reg, ss) == Err(SearchTopics(find, reg, ss[i], reg.names).fault)
  {
    assert ss[..i + 1][..i] == ss[..i];
    assert ss[..i + 1][i] == ss[i];
    assert FramesDrawn(find, reg, ss[..i + 1]) == SearchSentences(find, reg, ss[..i]).value.0;
    FramesDrawnErrPrefix(find, reg, ss, i + 1);
    SearchSentencesErrPrefix(find, reg, ss, i + 1);
  }

  /** Once the sweep of a prefix has failed, the later sentences draw no
      frame. */
  lemma {:induction false} FramesDrawnErrPrefix(find: Finder, reg: Registry, ss: seq<Sentence>, i: nat)
    requires i <= |ss| && SearchSentences(find, reg, ss[..i]).Err?
    ensures FramesDrawn(find, reg, ss) == FramesDrawn(find, reg, ss[..i])
    decreases |ss| - i
  {
    if i < |ss| {
      assert ss[..i + 1][..i] == ss[..i];
      SearchSentencesErrPrefix(find, reg, ss[..i + 1], i);
      FramesDrawnErrPrefix(find, reg, ss, i + 1);
    } else {
      assert ss[..i] == ss;
    }
  }

  /** The topic sweep succeeds exactly when every topic is examined without
      an exception; otherwise it fails with the exception of the first topic
      that raises one. */
  lemma {:induction false} SearchTopicsOk(find: Finder, reg: Registry, s: Sentence, names: seq<string>)
    ensures SearchTopics(find, reg, s, names).Ok?
            <==> forall j :: 0 <= j < |names| ==> Examine(find, reg, s, names[j]).Ok?
    ensures SearchTopics(find, reg, s, names).Err? ==>
              exists j :: 0 <= j < |names| && Examine(find, reg, s, names[j]).Err? &&
                          Examine(find, reg, s, names[j]).fault == SearchTopics(find, reg, s, names).fault &&
                          forall i :: 0 <= i < j ==> Examine(find, reg, s, names[i]).Ok?
  {
    if names != [] {
      var n := |names| - 1;
      var pre := names[..n];
      SearchTopicsOk(find, reg, s, pre);
      assert forall j :: 0 <= j < n ==> pre[j] == names[j];
    }
  }

  /** `ti` lists, in increasing order, exactly the indices of the topics of
      `names` that hit sentence `s`. */
  ghost predicate ListsHits(find: Finder, reg: Registry, s: Sentence, names: seq<string>, ti: seq<nat>) {
    && (forall k :: 0 <= k < |ti| ==> ti[k] < |names| && Hit(find, reg, s, names[ti[k]]))
    && (forall k, l :: 0 <= k < l < |ti| ==> ti[k] < ti[l])
    && (forall j :: 0 <= j < |names| && Hit(find, reg, s, names[j]) ==> j in ti)
  }

  lemma ListsHitsSnoc(find: Finder, reg: Registry, s: Sentence, names: seq<string>, ti: seq<nat>)
    requires |names| > 0
    requires ListsHits(find, reg, s, names[..|names| - 1], ti)
    ensures Hit(find, reg, s, names[|names| - 1]) ==> ListsHits(find, reg, s, names, ti + [|names| - 1])
    ensures !Hit(find, reg, s, names[|names| - 1]) ==> ListsHits(find, reg, s, names, ti)
  {
    var n := |names| - 1;
    assert forall j :: 0 <= j < n ==> names[..n][j] == names[j];
  }

  /** The entries of one sentence are, in topic order, one per hit topic,
      each the examination's entry for that topic. */
  lemma {:induction false} SearchTopicsMeaning(find: Finder, reg: Registry, s: Sentence, names: seq<string>)
    returns (ti: seq<nat>)
    requires SearchTopics(find, reg, s, names).Ok?
    ensures var ms := SearchTopics(find, reg, s, names).value;
            && |ti| == |ms|
            && ListsHits(find, reg, s, names, ti)
            && forall k :: 0 <= k < |ti| ==> Examine(find, reg, s, names[ti[k]]) == Ok(Some(ms[k]))
  {
    if names == [] {
      ti := [];
    } else {
      var n := |names| - 1;
      var pre := names[..n];
      var ti0 := SearchTopicsMeaning(find, reg, s, pre);
      var ms0 := SearchTopics(find, reg, s, pre).value;
      ExamineMeaning(find, reg, s, names[n]);
      ListsHitsSnoc(find, reg, s, names, ti0);
      assert forall k :: 0 <= k < |ti0| ==> names[ti0[k]] == pre[ti0[k]];
      if Hit(find, reg, s, names[n]) {
        ti := ti0 + [n];
      } else {
        ti := ti0;
      }
    }
  }

  /** An exception in a prefix of the topics is the exception of the whole
      sweep. */
  lemma {:induction false} SearchTopicsErrPrefix(find: Finder, reg: Registry, s: Sentence,
                                                 names: seq<string>, j: nat)
    requires j <= |names| && SearchTopics(find, reg, s, names[..j]).Err?
    ensures SearchTopics(find, reg, s, names) == SearchTopics(find, reg, s, names[..j])
    decreases |names| - j
  {
    if j < |names| {
      assert names[..j + 1][..j] == names[..j];
      SearchTopicsErrPrefix(find, reg, s, names, j + 1);
    } else {
      assert names[..j] == names;
    }
  }

  /** The same for a prefix of the sentences. */
  lemma {:induction false} SearchSentencesErrPrefix(find: Finder, reg: Registry, ss: seq<Sentence>, i: nat)
    requires i <= |ss| && SearchSentences(find, reg, ss[..i]).Err?
    ensures SearchSentences(find, reg, ss) == SearchSentences(find, reg, ss[..i])
    decreases |ss| - i
  {
    if i < |ss| {
      assert ss[..i + 1][..i] == ss[..i];
      SearchSentencesErrPrefix(find, reg, ss, i + 1);
    } else {
      assert ss[..i] == ss;
    }
  }

  /** The sweep over the sentences succeeds exactly when every topic sweep
      does. */
  lemma {:induction false} SearchSentencesOk(find: Finder, reg: Registry, ss: seq<Sentence>)
    ensures SearchSentences(find, reg, ss).Ok?
            <==> forall i :: 0 <= i < |ss| ==> SearchTopics(find, reg, ss[i], reg.names).Ok?
  {
    if ss != [] {
      var n := |ss| - 1;
      SearchSentencesOk(find, reg, ss[..n]);
      assert forall i :: 0 <= i < n ==> ss[..n][i] == ss[i];
    }
  }

  /** A successful sweep draws one frame per sentence, in stored order, each
      with the topics found in it. */
  lemma {:induction false} SearchSentencesFrames(find: Finder, reg: Registry, ss: seq<Sentence>)
    requires SearchSentences(find, reg, ss).Ok?
    ensures var frames := SearchSentences(find, reg, ss).value.0;
            && |frames| == |ss|
            && forall i :: 0 <= i < |ss| ==>
                 && SearchTopics(find, reg, ss[i], reg.names).Ok?
                 && frames[i] == Frame(ss[i], Founds(SearchTopics(find, reg, ss[i], reg.names).value))
  {
    if ss != [] {
      var n := |ss| - 1;
      SearchSentencesFrames(find, reg, ss[..n]);
      assert forall i :: 0 <= i < n ==> ss[..n][i] == ss[i];
    }
  }

  /** Every pair listed by `si` and `ti` hits. */
  ghost predicate PairsSound(find: Finder, reg: Registry, ss: seq<Sentence>, si: seq<nat>, ti: seq<nat>) {
    && |si| == |ti|
    && forall k :: 0 <= k < |si| ==>
         si[k] < |ss| && ti[k] < |reg.names| && Hit(find, reg, ss[si[k]], reg.names[ti[k]])
  }

  /** The listed pairs increase by sentence and then by topic. */
  predicate PairsOrdered(si: seq<nat>, ti: seq<nat>) {
    && |si| == |ti|
    && forall k, l :: 0 <= k < l < |si| ==> si[k] < si[l] || (si[k] == si[l] && ti[k] < ti[l])
  }

  /** Every pair that hits is listed. */
  ghost predicate PairsComplete(find: Finder, reg: Registry, ss: seq<Sentence>, si: seq<nat>, ti: seq<nat>) {
    forall i, j :: 0 <= i < |ss| && 0 <= j < |reg.names| && Hit(find, reg, ss[i], reg.names[j]) ==>
      exists k :: 0 <= k < |si| && k < |ti| && si[k] == i && ti[k] == j
  }

  /** `si` and `ti` list, in sentence order and then topic order, exactly
      the (sentence, topic) pairs that hit. */
  ghost predicate ListsPairs(find: Finder, reg: Registry, ss: seq<Sentence>, si: seq<nat>, ti: seq<nat>) {
    PairsSound(find, reg, ss, si, ti) && PairsOrdered(si, ti) && PairsComplete(find, reg, ss, si, ti)
  }

  /** `ms` holds, for each listed pair, its examination's entry. */
  ghost predicate PairsEntries(find: Finder, reg: Registry, ss: seq<Sentence>, si: seq<nat>, ti: seq<nat>,
                               ms: seq<Match>) {
    && |si| == |ms| && |ti| == |ms|
    && forall k :: 0 <= k < |ms| ==>
         si[k] < |ss| && ti[k] < |reg.names| && Examine(find, reg, ss[si[k]], reg.names[ti[k]]) == Ok(Some(ms[k]))
  }

  lemma SoundSnoc(find: Finder, reg: Registry, ss: seq<Sentence>, si: seq<nat>, ti: seq<nat>, tj: seq<nat>)
    requires |ss| > 0
    requires PairsSound(find, reg, ss[..|ss| - 1], si, ti)
    requires ListsHits(find, reg, ss[|ss| - 1], reg.names, tj)
    ensures PairsSound(find, reg, ss, si + seq(|tj|, _ => |ss| - 1), ti + tj)
    ensures forall k :: 0 <= k < |si| ==> si[k] < |ss| - 1
  {
    var n := |ss| - 1;
    var si' := si + seq(|tj|, _ => n);
    var ti' := ti + tj;
    forall k | 0 <= k < |si'|
      ensures si'[k] < |ss| && ti'[k] < |reg.names| && Hit(find, reg, ss[si'[k]], reg.names[ti'[k]])
    {
      if k < |si| {
        assert ss[..n][si[k]] == ss[si'[k]];
      } else {
        assert si'[k] == n && ti'[k] == tj[k - |si|];
      }
    }
  }

  lemma OrderedSnoc(si: seq<nat>, ti: seq<nat>, n: nat, tj: seq<nat>)
    requires PairsOrdered(si, ti) && forall k :: 0 <= k < |si| ==> si[k] < n
    requires forall k, l :: 0 <= k < l < |tj| ==> tj[k] < tj[l]
    ensures PairsOrdered(si + seq(|tj|, _ => n), ti + tj)
  {
    var si' := si + seq(|tj|, _ => n);
    var ti' := ti + tj;
    forall k, l | 0 <= k < l < |si'| ensures si'[k] < si'[l] || (si'[k] == si'[l] && ti'[k] < ti'[l]) {
      if l < |si| {
        assert si'[k] == si[k] && si'[l] == si[l] && ti'[k] == ti[k] && ti'[l] == ti[l];
      } else if k < |si| {
        assert si'[k] == si[k] && si'[l] == n;
      } else {
        assert si'[k] == n == si'[l] && ti'[k] == tj[k - |si|] && ti'[l] == tj[l - |si|];
      }
    }
  }

  lemma CompleteSnoc(find: Finder, reg: Registry, ss: seq<Sentence>, si: seq<nat>, ti: seq<nat>, tj: seq<nat>)
    requires |ss| > 0 && |si| == |ti|
    requires PairsComplete(find, reg, ss[..|ss| - 1], si, ti)
    requires ListsHits(find, reg, ss[|ss| - 1], reg.names, tj)
    ensures PairsComplete(find, reg, ss, si + seq(|tj|, _ => |ss| - 1), ti + tj)
  {
    var n := |ss| - 1;
    var si' := si + seq(|tj|, _ => n);
    var ti' := ti + tj;
    forall i, j | 0 <= i < |ss| && 0 <= j < |reg.names| && Hit(find, reg, ss[i], reg.names[j])
      ensures exists k :: 0 <= k < |si'| && k < |ti'| && si'[k] == i && ti'[k] == j
    {
      if i < n {
        assert Hit(find, reg, ss[..n][i], reg.names[j]);
        var k :| 0 <= k < |si| && k < |ti| && si[k] == i && ti[k] == j;
        assert si'[k] == i && ti'[k] == j;
      } else {
        var m :| 0 <= m < |tj| && tj[m] == j;
        assert si'[|si| + m] == i && ti'[|si| + m] == j;
      }
    }
  }

  lemma EntriesSnoc(find: Finder, reg: Registry, ss: seq<Sentence>, si: seq<nat>, ti: seq<nat>,
                    ms: seq<Match>, tj: seq<nat>, mt: seq<Match>)
    requires |ss| > 0
    requires PairsEntries(find, reg, ss[..|ss| - 1], si, ti, ms)
    requires |tj| == |mt|
    requires forall k :: 0 <= k < |tj| ==>
               tj[k] < |reg.names| && Examine(find, reg, ss[|ss| - 1], reg.names[tj[k]]) == Ok(Some(mt[k]))
    ensures PairsEntries(find, reg, ss, si + seq(|tj|, _ => |ss| - 1), ti + tj, ms + mt)
  {
    var n := |ss| - 1;
    var si' := si + seq(|tj|, _ => n);
    var ti' := ti + tj;
    var ms' := ms + mt;
    forall k | 0 <= k < |ms'|
      ensures si'[k] < |ss| && ti'[k] < |reg.names| && Examine(find, reg, ss[si'[k]], reg.names[ti'[k]]) == Ok(Some(ms'[k]))
    {
      if k < |ms| {
        assert ss[..n][si[k]] == ss[si'[k]] && ti'[k] == ti[k] && ms'[k] == ms[k];
      } else {
        assert si'[k] == n && ti'[k] == tj[k - |ms|] && ms'[k] == mt[k - |ms|];
      }
    }
  }

  /** The whole `matches` list: one entry per hitting (sentence, topic)
      pair, ordered by sentence and then by topic, each the examination's
      entry for that pair. */
  lemma {:induction false} SearchSentencesMeaning(find: Finder, reg: Registry, ss: seq<Sentence>)
    returns (si: seq<nat>, ti: seq<nat>)
    requires SearchSentences(find, reg, ss).Ok?
    ensures ListsPairs(find, reg, ss, si, ti)
    ensures PairsEntries(find, reg, ss, si, ti, SearchSentences(find, reg, ss).value.1)
  {
    if ss == [] {
      si, ti := [], [];
    } else {
      var n := |ss| - 1;
      var si0, ti0 := SearchSentencesMeaning(find, reg, ss[..n]);
      var tj := SearchTopicsMeaning(find, reg, ss[n], reg.names);
      SoundSnoc(find, reg, ss, si0, ti0, tj);
      OrderedSnoc(si0, ti0, n, tj);
      CompleteSnoc(find, reg, ss, si0, ti0, tj);
      EntriesSnoc(find, reg, ss, si0, ti0, SearchSentences(find, reg, ss[..n]).value.1, tj,
                  SearchTopics(find, reg, ss[n], reg.names).value);
      si, ti := si0 + seq(|tj|, _ => n), ti0 + tj;
    }
  }

  /** An exception while examining topic `j` of sentence `i`, after the
      earlier sentences and topics went through, is the exception of the
      whole search. */
  lemma SearchCrashesAt(find: Finder, reg: Registry, ss: seq<Sentence>, i: nat, j: nat, f: Fault)
    requires i < |ss| && j < |reg.names|
    requires SearchSentences(find, reg, ss[..i]).Ok? && SearchTopics(find, reg, ss[i], reg.names[..j]).Ok?
    requires Examine(find, reg, ss[i], reg.names[j]) == Err(f)
    ensures SearchSentences(find, reg, ss) == Err(f)
    ensures Search(find, reg, Some(ss)) == Crashed(SearchSentences(find, reg, ss[..i]).value.0, f)
  {
    assert reg.names[..j + 1][..j] == reg.names[..j];
    SearchTopicsErrPrefix(find, reg, ss[i], reg.names, j + 1);
    FramesDrawnAt(find, reg, ss, i);
  }

  /** After a search, the "nothing found" notice is shown exactly when no
      (sentence, topic) pair hits; otherwise the results area lists the
      matches. */
  lemma SearchNotice(find: Finder, reg: Registry, ss: seq<Sentence>)
    requires Search(find, reg, Some(ss)).Searched?
    ensures Search(find, reg, Some(ss)).pane == Notice(NothingDetected)
            <==> forall i, j :: 0 <= i < |ss| && 0 <= j < |reg.names| ==> !Hit(find, reg, ss[i], reg.names[j])
  {
    var si, ti := SearchSentencesMeaning(find, reg, ss);
    if |si| > 0 {
      assert Hit(find, reg, ss[si[0]], reg.names[ti[0]]);
    }
    if exists i, j :: 0 <= i < |ss| && 0 <= j < |reg.names| && Hit(find, reg, ss[i], reg.names[j]) {
      var i, j :| 0 <= i < |ss| && 0 <= j < |reg.names| && Hit(find, reg, ss[i], reg.names[j]);
      var k :| 0 <= k < |si| && k < |ti| && si[k] == i && ti[k] == j;
    }
  }

  // ---------------------------------------------------------------------
  // generate_pdf_report

  /** One element of the report, in document order. */
  datatype Entry =
    | Title                                                   // 'Relatório de Análise de Áudio'
    | Date(when: string)                                      // 'Data: ...'
    | FileName(name: string)                                  // 'Arquivo: ...'
    | HashLabel                                               // 'Hash SHA-256:'
    | HashValue(hex: string)
    | TranscriptHeading                                       // 'Transcrição:'
    | TranscriptLine(sentence: Sentence)
    | FindingsHeading                                         // 'Temas Sensíveis Detectados:'
    | Finding(topic: string, sentence: Sentence, words: set<string>)
    | NothingFound                                            // 'Nenhum tema sensível detectado.'

  /** The inner loop of the report for one sentence: a finding per flagged
      ticked topic, or the first exception of a lookup. */
  function ReportTopics(find: Finder, reg: Registry, s: Sentence, names: seq<string>): Result<seq<Entry>>
  {
    if names == [] then Ok([])
    else
      match ReportTopics(find, reg, s, names[..|names| - 1])
      case Err(f) => Err(f)
      case Ok(es) =>
        var topic := names[|names| - 1];
        if !IsEnabled(reg, topic) then Ok(es)
        else
          match find(s.text, topic)
          case Err(f) => Err(f)
          case Ok(r) => if r.0 then Ok(es + [Finding(topic, s, r.1)]) else Ok(es)
  }

  /** The outer loop of the report over the sentences. */
  function ReportSentences(find: Finder, reg: Registry, ss: seq<Sentence>): Result<seq<Entry>>
  {
    if ss == [] then Ok([])
    else
      match ReportSentences(find, reg, ss[..|ss| - 1])
      case Err(f) => Err(f)
      case Ok(es) =>
        match ReportTopics(find, reg, ss[|ss| - 1], reg.names)
        case Err(f) => Err(f)
        case Ok(fs) => Ok(es + fs)
  }

  /** The transcript section: one line per stored sentence, in order. */
  function TranscriptLines(ss: seq<Sentence>): (es: seq<Entry>)
    ensures |es| == |ss|
    ensures forall i :: 0 <= i < |ss| ==> es[i] == TranscriptLine(ss[i])
  {
    seq(|ss|, i requires 0 <= i < |ss| => TranscriptLine(ss[i]))
  }

  /** The whole document once the hash is known and the sweep succeeded. */
  function ReportEntries(when: string, filename: string, hex: string, ss: seq<Sentence>,
                         findings: seq<Entry>): seq<Entry>
  {
    Header(when, filename, hex) + Body(ss, findings)
  }

  /** The transcript lines, the findings heading, the findings and their
      closing line. */
  function Body(ss: seq<Sentence>, findings: seq<Entry>): seq<Entry>
  {
    TranscriptLines(ss) + ([FindingsHeading] + (findings + Closing(findings)))
  }

  /** The title, the date, the file's base name and its hash, and the
      transcript heading. */
  function Header(when: string, filename: string, hex: string): (h: seq<Entry>)
    ensures |h| == 6
  {
    [Title, Date(when), FileName(Basename(filename)), HashLabel, HashValue(hex), TranscriptHeading]
  }

  /** The "nothing found" line, written when there is no finding. */
  function Closing(findings: seq<Entry>): seq<Entry>
  {
    if findings == [] then [NothingFound] else []
  }

  /** What `generate_pdf_report` does: an error box when nothing was
      transcribed, nothing when the save dialog is cancelled, an error box
      with the exception, or the document written to `path`. */
  datatype ReportOutcome =
    | NoTranscriptToReport
    | Cancelled
    | Failed(fault: Fault)
    | Saved(path: string, entries: seq<Entry>)

  /** `generate_pdf_report`. `path` is the answer of the save dialog, `when`
      the formatted current time, `file` the bytes of `filename` (or none when
      it cannot be opened) and `digestOf` the SHA-256 function whose
      hexadecimal digest `calculate_file_hash` prints. `written` says whether
      the PDF library renders the document in its core font and saves it to
      `path`; when it does not, the exception it raises ends in the error
      box and no document. */
  function Report(find: Finder, reg: Registry, sentences: Option<seq<Sentence>>, path: string,
                  when: string, filename: string, file: Option<seq<byte>>,
                  digestOf: seq<byte> -> seq<byte>, written: bool): ReportOutcome
  {
    match sentences
    case None => NoTranscriptToReport
    case Some(ss) =>
      if path == "" then Cancelled
      else
        match file
        case None => Failed(IOError)
        case Some(bytes) =>
          match ReportSentences(find, reg, ss)
          case Err(f) => Failed(f)
          case Ok(fs) =>
            if written then Saved(path, ReportEntries(when, filename, Hex(digestOf(bytes)), ss, fs))
            else Failed(WriteError)
  }

  /** A topic's report finding is the search's entry without its related
      words and colour. */
  function FindingOf(m: Match): Entry {
    Finding(m.topic, m.sentence, m.detected)
  }

  function FindingsOf(ms: seq<Match>): (es: seq<Entry>)
    ensures |es| == |ms|
    ensures forall k :: 0 <= k < |ms| ==> es[k] == FindingOf(ms[k])
  {
    seq(|ms|, k requires 0 <= k < |ms| => FindingOf(ms[k]))
  }

  lemma FindingsOfAppend(a: seq<Match>, b: seq<Match>)
    ensures FindingsOf(a + b) == FindingsOf(a) + FindingsOf(b)
  {
  }

  /** An exception in the lookup of ticked topic `j` of sentence `i`, after
      the earlier sentences and topics went through, is the exception of
      the report's whole sweep. */
  lemma ReportCrashesAt(find: Finder, reg: Registry, ss: seq<Sentence>, i: nat, j: nat, f: Fault)
    requires i < |ss| && j < |reg.names| && IsEnabled(reg, reg.names[j])
    requires ReportSentences(find, reg, ss[..i]).Ok? && ReportTopics(find, reg, ss[i], reg.names[..j]).Ok?
    requires find(ss[i].text, reg.names[j]) == Err(f)
    ensures ReportSentences(find, reg, ss) == Err(f)
  {
    assert reg.names[..j + 1][..j] == reg.names[..j];
    ReportTopicsErrPrefix(find, reg, ss[i], reg.names, j + 1);
    assert ss[..i + 1][..i] == ss[..i];
    ReportSentencesErrPrefix(find, reg, ss, i + 1);
  }

  lemma {:induction false} ReportTopicsErrPrefix(find: Finder, reg: Registry, s: Sentence,
                                                 names: seq<string>, j: nat)
    requires j <= |names| && ReportTopics(find, reg, s, names[..j]).Err?
    ensures ReportTopics(find, reg, s, names) == ReportTopics(find, reg, s, names[..j])
    decreases |names| - j
  {
    if j < |names| {
      assert names[..j + 1][..j] == names[..j];
      ReportTopicsErrPrefix(find, reg, s, names, j + 1);
    } else {
      assert names[..j] == names;
    }
  }

  lemma {:induction false} ReportSentencesErrPrefix(find: Finder, reg: Registry, ss: seq<Sentence>, i: nat)
    requires i <= |ss| && ReportSentences(find, reg, ss[..i]).Err?
    ensures ReportSentences(find, reg, ss) == ReportSentences(find, reg, ss[..i])
    decreases |ss| - i
  {
    if i < |ss| {
      assert ss[..i + 1][..i] == ss[..i];
      ReportSentencesErrPrefix(find, reg, ss, i + 1);
    } else {
      assert ss[..i] == ss;
    }
  }

  /** The report's topic loop fails exactly when the lookup of a ticked
      topic does, with that lookup's exception; a search that succeeds on a sentence has a report that
      succeeds on it with the same findings. */
  lemma {:induction false} ReportTopicsMeaning(find: Finder, reg: Registry, s: Sentence, names: seq<string>)
    ensures ReportTopics(find, reg, s, names).Ok?
            <==> forall j :: 0 <= j < |names| && IsEnabled(reg, names[j]) ==> find(s.text, names[j]).Ok?
    ensures ReportTopics(find, reg, s, names).Err? ==>
              exists j :: 0 <= j < |names| && IsEnabled(reg, names[j]) && find(s.text, names[j]).Err? &&
                          ReportTopics(find, reg, s, names).fault == find(s.text, names[j]).fault
    ensures SearchTopics(find, reg, s, names).Ok? ==>
              ReportTopics(find, reg, s, names) == Ok(FindingsOf(SearchTopics(find, reg, s, names).value))
  {
    if names != [] {
      var n := |names| - 1;
      var pre := names[..n];
      ReportTopicsMeaning(find, reg, s, pre);
      assert forall j :: 0 <= j < n ==> pre[j] == names[j];
      if SearchTopics(find, reg, s, names).Ok? {
        var ms0 := SearchTopics(find, reg, s, pre).value;
        match Examine(find, reg, s, names[n])
        case Ok(None) =>
        case Ok(Some(m)) =>
          assert SearchTopics(find, reg, s, names).value == ms0 + [m];
          assert ReportTopics(find, reg, s, pre) == Ok(FindingsOf(ms0));
          assert FindingOf(m) == Finding(names[n], s, find(s.text, names[n]).value.1);
          assert ReportTopics(find, reg, s, names) == Ok(FindingsOf(ms0) + [FindingOf(m)]);
          FindingsOfAppend(ms0, [m]);
          assert FindingsOf([m]) == [FindingOf(m)];
      }
    }
  }

  /** The same for the sweep over the sentences. */
  lemma {:induction false} ReportSentencesMeaning(find: Finder, reg: Registry, ss: seq<Sentence>)
    ensures ReportSentences(find, reg, ss).Ok?
            <==> forall i, j :: 0 <= i < |ss| && 0 <= j < |reg.names| && IsEnabled(reg, reg.names[j]) ==>
                   find(ss[i].text, reg.names[j]).Ok?
    ensures ReportSentences(find, reg, ss).Err? ==>
              exists i, j :: 0 <= i < |ss| && 0 <= j < |reg.names| && IsEnabled(reg, reg.names[j]) &&
                             find(ss[i].text, reg.names[j]).Err? &&
                             ReportSentences(find, reg, ss).fault == find(ss[i].text, reg.names[j]).fault
    ensures SearchSentences(find, reg, ss).Ok? ==>
              ReportSentences(find, reg, ss) == Ok(FindingsOf(SearchSentences(find, reg, ss).value.1))
  {
    if ss != [] {
      var n := |ss| - 1;
      var pre := ss[..n];
      ReportSentencesMeaning(find, reg, pre);
      ReportTopicsMeaning(find, reg, ss[n], reg.names);
      assert forall i :: 0 <= i < n ==> pre[i] == ss[i];
      if SearchSentences(find, reg, ss).Ok? {
        FindingsOfAppend(SearchSentences(find, reg, pre).value.1,
                         SearchTopics(find, reg, ss[n], reg.names).value);
      }
    }
  }

  /** The findings of the report are those of the search on the same
      registry, whenever the search does not raise an exception; the document
      is saved unless the PDF library fails. */
  lemma ReportAgreesWithSearch(find: Finder, reg: Registry, ss: seq<Sentence>, path: string, when: string,
                               filename: string, bytes: seq<byte>, digestOf: seq<byte> -> seq<byte>,
                               written: bool)
    requires path != "" && SearchSentences(find, reg, ss).Ok?
    ensures Report(find, reg, Some(ss), path, when, filename, Some(bytes), digestOf, written)
            == if written
               then Saved(path, ReportEntries(when, filename, Hex(digestOf(bytes)), ss,
                                              FindingsOf(SearchSentences(find, reg, ss).value.1)))
               else Failed(WriteError)
  {
    ReportSentencesMeaning(find, reg, ss);
  }

  /** A saved report starts with its six-line header and its transcript
      lists every stored sentence in order right after it, followed by the
      findings heading. */
  lemma ReportLayout(find: Finder, reg: Registry, ss: seq<Sentence>, path: string, when: string,
                     filename: string, bytes: seq<byte>, digestOf: seq<byte> -> seq<byte>, written: bool,
                     es: seq<Entry>)
    requires Report(find, reg, Some(ss), path, when, filename, Some(bytes), digestOf, written) == Saved(path, es)
    ensures && |es| > |ss| + 7
            && es[..6] == [Title, Date(when), FileName(Basename(filename)), HashLabel,
                           HashValue(Hex(digestOf(bytes))), TranscriptHeading]
            && (forall i :: 0 <= i < |ss| ==> es[6 + i] == TranscriptLine(ss[i]))
            && es[6 + |ss|] == FindingsHeading
  {
    var fs := ReportSentences(find, reg, ss).value;
    var hex := Hex(digestOf(bytes));
    assert es == ReportEntries(when, filename, hex, ss, fs);
    EntriesHeader(when, filename, hex, ss, fs);
    TranscriptPart(ss, fs);
    forall i | 0 <= i < |ss| ensures es[6 + i] == TranscriptLine(ss[i]) {
      EntriesBody(when, filename, hex, ss, fs, i);
    }
    EntriesBody(when, filename, hex, ss, fs, |ss|);
  }

  /** The "nothing found" line closes a saved report exactly when no
      (sentence, ticked topic) pair hits. */
  lemma ReportClosing(find: Finder, reg: Registry, ss: seq<Sentence>, path: string, when: string,
                      filename: string, bytes: seq<byte>, digestOf: seq<byte> -> seq<byte>, written: bool,
                     es: seq<Entry>)
    requires Report(find, reg, Some(ss), path, when, filename, Some(bytes), digestOf, written) == Saved(path, es)
    ensures |es| > 0
    ensures es[|es| - 1] == NothingFound
            <==> forall i, j :: 0 <= i < |ss| && 0 <= j < |reg.names| ==> !Hit(find, reg, ss[i], reg.names[j])
  {
    var fs := ReportSentences(find, reg, ss).value;
    var hex := Hex(digestOf(bytes));
    assert es == ReportEntries(when, filename, hex, ss, fs);
    FindingsAreFindings(find, reg, ss);
    EntriesClosing(when, filename, hex, ss, fs);
    ReportFindingsHits(find, reg, ss);
  }

  /** The last entry of a document is the "nothing found" line exactly when
      it has no finding. */
  lemma EntriesClosing(when: string, filename: string, hex: string, ss: seq<Sentence>, fs: seq<Entry>)
    requires forall e :: e in fs ==> e.Finding?
    ensures var es := ReportEntries(when, filename, hex, ss, fs);
            |es| > 0 && (es[|es| - 1] == NothingFound <==> fs == [])
  {
    var body := Body(ss, fs);
    EntriesHeader(when, filename, hex, ss, fs);
    BodyClosing(ss, fs);
    EntriesBody(when, filename, hex, ss, fs, |body| - 1);
  }

  /** The document opens with the header...  */
  lemma EntriesHeader(when: string, filename: string, hex: string, ss: seq<Sentence>, fs: seq<Entry>)
    ensures var es := ReportEntries(when, filename, hex, ss, fs);
            |es| == 6 + |Body(ss, fs)| && es[..6] == Header(when, filename, hex)
  {
    TakeFront(Header(when, filename, hex), Body(ss, fs));
  }

  /** ...and the body follows it. */
  lemma EntriesBody(when: string, filename: string, hex: string, ss: seq<Sentence>, fs: seq<Entry>, i: nat)
    requires i < |Body(ss, fs)|
    ensures ReportEntries(when, filename, hex, ss, fs)[6 + i] == Body(ss, fs)[i]
  {
  }

  /** What follows the header: the transcript lines, then the findings
      heading, then the findings. */
  lemma TranscriptPart(ss: seq<Sentence>, fs: seq<Entry>)
    ensures var body := Body(ss, fs);
            && |body| > |ss| + 1
            && (forall i :: 0 <= i < |ss| ==> body[i] == TranscriptLine(ss[i]))
            && body[|ss|] == FindingsHeading
            && (forall k :: 0 <= k < |fs| ==> body[|ss| + 1 + k] == fs[k])
  {
  }

  /** The body ends with the "nothing found" line exactly when there is no
      finding. */
  lemma BodyClosing(ss: seq<Sentence>, fs: seq<Entry>)
    requires forall e :: e in fs ==> e.Finding?
    ensures var body := Body(ss, fs);
            |body| > 0 && (body[|body| - 1] == NothingFound <==> fs == [])
  {
    ClosingMeaning(fs);
    var rest := [FindingsHeading] + (fs + Closing(fs));
    assert Body(ss, fs)[|Body(ss, fs)| - 1] == rest[|rest| - 1];
  }

  lemma TakeFront(a: seq<Entry>, b: seq<Entry>)
    ensures (a + b)[..|a|] == a
  {
  }

  lemma DropFront(a: seq<Entry>, b: seq<Entry>)
    ensures (a + b)[|a|..] == b
  {
  }

  /** The last element of findings followed by their closing line is the
      "nothing found" line exactly when there is no finding. */
  lemma ClosingMeaning(fs: seq<Entry>)
    requires forall e :: e in fs ==> e.Finding?
    ensures |fs + Closing(fs)| > 0
    ensures (fs + Closing(fs))[|fs + Closing(fs)| - 1] == NothingFound <==> fs == []
  {
    if fs != [] {
      assert (fs + Closing(fs))[|fs| - 1] == fs[|fs| - 1];
      assert fs[|fs| - 1] in fs;
    }
  }

  /** The report's findings are empty exactly when no pair hits. */
  lemma {:induction false} ReportFindingsHits(find: Finder, reg: Registry, ss: seq<Sentence>)
    requires ReportSentences(find, reg, ss).Ok?
    ensures ReportSentences(find, reg, ss).value == []
            <==> forall i, j :: 0 <= i < |ss| && 0 <= j < |reg.names| ==> !Hit(find, reg, ss[i], reg.names[j])
  {
    if ss != [] {
      var n := |ss| - 1;
      var pre := ss[..n];
      ReportFindingsHits(find, reg, pre);
      ReportTopicsHits(find, reg, ss[n], reg.names);
      assert forall i :: 0 <= i < n ==> pre[i] == ss[i];
    }
  }

  /** One sentence's findings are empty exactly when no topic hits it. */
  lemma {:induction false} ReportTopicsHits(find: Finder, reg: Registry, s: Sentence, names: seq<string>)
    requires ReportTopics(find, reg, s, names).Ok?
    ensures ReportTopics(find, reg, s, names).value == []
            <==> forall j :: 0 <= j < |names| ==> !Hit(find, reg, s, names[j])
  {
    if names != [] {
      var n := |names| - 1;
      var pre := names[..n];
      ReportTopicsHits(find, reg, s, pre);
      assert forall j :: 0 <= j < n ==> pre[j] == names[j];
    }
  }

  /** Every element the report's sweep produces is a finding. */
  lemma {:induction false} FindingsAreFindings(find: Finder, reg: Registry, ss: seq<Sentence>)
    requires ReportSentences(find, reg, ss).Ok?
    ensures forall e :: e in ReportSentences(find, reg, ss).value ==> e.Finding?
  {
    if ss != [] {
      FindingsAreFindings(find, reg, ss[..|ss| - 1]);
      TopicFindingsAreFindings(find, reg, ss[|ss| - 1], reg.names);
    }
  }

  lemma {:induction false} TopicFindingsAreFindings(find: Finder, reg: Registry, s: Sentence, names: seq<string>)
    requires ReportTopics(find, reg, s, names).Ok?
    ensures forall e :: e in ReportTopics(find, reg, s, names).value ==> e.Finding?
  {
    if names != [] {
      TopicFindingsAreFindings(find, reg, s, names[..|names| - 1]);
    }
  }

  // ---------------------------------------------------------------------
  // custom topics

  /** A custom topic has related words but no colour, so as soon as it hits
      a sentence the search raises `KeyError` (from `topic_colors[topic]`)
      where it would otherwise list the match, while the report, which reads
      no colour, is still saved when the search of the other topics is
      clean. */
  lemma CustomTopicHitCrashesSearch(find: Finder, reg: Registry, ss: seq<Sentence>, i: nat, j: nat)
    requires i < |ss| && j < |reg.names|
    requires Hit(find, reg, ss[i], reg.names[j]) && reg.names[j] !in reg.colors
    ensures SearchSentences(find, reg, ss).Err?
    ensures Search(find, reg, Some(ss)).Crashed?
  {
    SearchSentencesOk(find, reg, ss);
    SearchTopicsOk(find, reg, ss[i], reg.names);
    ExamineMeaning(find, reg, ss[i], reg.names[j]);
  }

  /** The correction: a topic without an entry in `topic_colors` is drawn
      in `fallback` (as `topic_colors.get(topic, fallback)` would), and
      every other colour stays. */
  function WithFallbackColor(reg: Registry, fallback: string): (r: Registry)
    ensures r.names == reg.names && r.enabled == reg.enabled && r.related == reg.related
    ensures forall n :: n in reg.enabled ==> n in r.colors
    ensures forall n :: n in reg.colors ==> n in r.colors && r.colors[n] == reg.colors[n]
  {
    reg.(colors := map n | n in reg.enabled.Keys + reg.colors.Keys ::
                     if n in reg.colors then reg.colors[n] else fallback)
  }

  /** The report's sweep reads no colour. */
  lemma {:induction false} ReportIgnoresColors(find: Finder, reg: Registry, other: Registry, ss: seq<Sentence>)
    requires other.names == reg.names && other.enabled == reg.enabled && other.related == reg.related
    ensures ReportSentences(find, other, ss) == ReportSentences(find, reg, ss)
  {
    if ss != [] {
      ReportIgnoresColors(find, reg, other, ss[..|ss| - 1]);
      TopicsIgnoreColors(find, reg, other, ss[|ss| - 1], reg.names);
    }
  }

  lemma {:induction false} TopicsIgnoreColors(find: Finder, reg: Registry, other: Registry, s: Sentence,
                                              names: seq<string>)
    requires other.names == reg.names && other.enabled == reg.enabled && other.related == reg.related
    ensures ReportTopics(find, other, s, names) == ReportTopics(find, reg, s, names)
  {
    if names != [] {
      TopicsIgnoreColors(find, reg, other, s, names[..|names| - 1]);
    }
  }

  /** With the fallback colour, a valid registry's search raises an
      exception exactly when the report's sweep does (that is, only when a
      lookup does), and then their findings agree, custom topics
      included. */
  lemma FallbackSearchAgreesWithReport(find: Finder, reg: Registry, ss: seq<Sentence>, fallback: string)
    requires Valid(reg)
    ensures var fixed := WithFallbackColor(reg, fallback);
            && (SearchSentences(find, fixed, ss).Ok? <==> ReportSentences(find, reg, ss).Ok?)
            && (SearchSentences(find, fixed, ss).Ok? ==>
                  ReportSentences(find, reg, ss) == Ok(FindingsOf(SearchSentences(find, fixed, ss).value.1)))
  {
    var fixed := WithFallbackColor(reg, fallback);
    ReportIgnoresColors(find, reg, fixed, ss);
    ReportSentencesMeaning(find, fixed, ss);
    SearchSentencesOk(find, fixed, ss);
    forall i | 0 <= i < |ss|
      ensures SearchTopics(find, fixed, ss[i], fixed.names).Ok?
              <==> forall j :: 0 <= j < |reg.names| && IsEnabled(reg, reg.names[j]) ==>
                     find(ss[i].text, reg.names[j]).Ok?
    {
      SearchTopicsOk(find, fixed, ss[i], fixed.names);
      forall j | 0 <= j < |reg.names|
        ensures Examine(find, fixed, ss[i], reg.names[j]).Ok?
                <==> (IsEnabled(reg, reg.names[j]) ==> find(ss[i].text, reg.names[j]).Ok?)
      {
        ExamineMeaning(find, fixed, ss[i], reg.names[j]);
      }
    }
  }
}
