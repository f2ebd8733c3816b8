/**
  The session object of raio.py (`AudioAnalyzerApp`): the topic registry,
  the selected file, the stored sentences and the playback flags, with the
  methods that change them and the loops of `find_similar_words`,
  `search_sensitive_topics` and `generate_pdf_report`, each proved against
  the functions of `TopicMatching` and `Sweeps`.
 */
module Raio {
  import opened Wrappers
  import opened Text
  import opened TopicMatching
  import opened Registry
  import opened Sweeps
  import opened FileHash
  import opened Playback

  /** A segment of the transcription: raw text and times in seconds. */
  datatype Segment = Segment(text: string, start: real, end: real)

  /** The sentences `process_audio` stores: each segment's text stripped,
      with its times. */
  function StoredSentences(segs: seq<Segment>): seq<Sentence>
  {
    seq(|segs|, i requires 0 <= i < |segs| => Sentence(Strip(segs[i].text), segs[i].start, segs[i].end))
  }

  /** A stored sentence keeps its segment's times and is its text with the
      surrounding white space removed. */
  lemma StoredSentencesMeaning(segs: seq<Segment>, i: nat)
    requires i < |segs|
    ensures |StoredSentences(segs)| == |segs|
    ensures var s := StoredSentences(segs)[i];
            && s.start == segs[i].start && s.end == segs[i].end
            && s.text == Strip(segs[i].text)
            && (s.text == [] || (!IsSpace(s.text[0]) && !IsSpace(s.text[|s.text| - 1])))
  {
    var lo := StripMeaning(segs[i].text);
  }

  /** The transcript section of the report: a line per stored sentence, in
      order. */
  method WriteTranscript(ss: seq<Sentence>) returns (lines: seq<Entry>)
    ensures lines == TranscriptLines(ss)
  {
    lines := [];
    var i := 0;
    while i < |ss|
      invariant i <= |ss| && |lines| == i
      invariant forall k :: 0 <= k < i ==> lines[k] == TranscriptLine(ss[k])
    {
      lines := lines + [TranscriptLine(ss[i])];
      i := i + 1;
    }
  }

  /** `[nlp(w)[0] for w in words]`, stopping at the first empty parse. */
  method TopicTokens(nlp: Nlp, words: seq<string>) returns (r: Result<seq<Token>>)
    ensures r == FirstTokens(nlp, words)
  {
    FirstTokensMeaning(nlp, words);
    var anchors: seq<Token> := [];
    var w := 0;
    while w < |words|
      invariant w <= |words| && |anchors| == w
      invariant forall i :: 0 <= i < w ==> |nlp.parse(words[i])| > 0 && anchors[i] == nlp.parse(words[i])[0]
    {
      var parsed := nlp.parse(words[w]);
      if |parsed| == 0 {
        return Err(IndexError);
      }
      anchors := anchors + [parsed[0]];
      w := w + 1;
    }
    assert anchors == FirstTokens(nlp, words).value;
    return Ok(anchors);
  }

  /** The loop of `find_similar_words` over the parsed text: a content
      token is compared with the anchors in order, and the first that fires
      adds its text. */
  method CollectSimilar(nlp: Nlp, doc: seq<Token>, anchors: seq<Token>) returns (similar: set<string>)
    ensures similar == SimilarWords(nlp, doc, anchors)
  {
    similar := {};
    var i := 0;
    while i < |doc|
      invariant i <= |doc|
      invariant similar == SimilarWords(nlp, doc[..i], anchors)
    {
      var token := doc[i];
      SimilarWordsSnoc(nlp, doc, anchors, i);
      if token.hasVector && !token.isStop && !token.isPunct {
        var j := 0;
        while j < |anchors|
          invariant j <= |anchors|
          invariant forall k :: 0 <= k < j ==> !Fires(nlp, token, anchors[k])
        {
          var anchor := anchors[j];
          if anchor.hasVector && nlp.exceeds(token, anchor) {
            similar := similar + {token.text};
            break;
          }
          j := j + 1;
        }
      }
      i := i + 1;
    }
    assert doc[..|doc|] == doc;
  }

  class RaioApp {
    /** The spaCy pipeline loaded by `__init__`. */
    const nlp: Nlp

    /** `topics` (key order and check boxes), `topic_related_words` and
        `topic_colors`. */
    var names: seq<string>
    var enabled: map<string, bool>
    var related: map<string, seq<string>>
    var colors: map<string, string>

    /** `self.filename` (absent until a file is chosen; "" when the dialog
        is cancelled). */
    var filename: Option<string>
    /** `self.sentences` (absent until a transcription succeeds). */
    var sentences: Option<seq<Sentence>>
    /** Whether `self.audio_segment` is a non-empty segment. */
    var hasAudio: bool
    var isPlaying: bool
    var stopRequested: bool

    function Reg(): Registry
      reads this
    {
      Registry(names, enabled, related, colors)
    }

    function Play(): PlayState
      reads this
    {
      PlayState(isPlaying, stopRequested)
    }

    /** The session's `find_sensitive_content`. */
    function Finder(): Sweeps.Finder
      reads this
    {
      SessionFinder(nlp, related)
    }

    /** What the session keeps true: a valid registry whose colours belong
        to topics, and sentences only after a file was chosen. */
    ghost predicate Consistent()
      reads this
    {
      && Valid(Reg())
      && (forall n :: n in colors ==> n in names)
      && (sentences.Some? ==> filename.Some?)
    }

    /** `__init__`: the built-in topics, all ticked, no file, nothing
        transcribed, no audio and nothing playing. */
    constructor(nlp: Nlp)
      ensures this.nlp == nlp
      ensures Reg() == DefaultRegistry()
      ensures filename == None && sentences == None && !hasAudio && Play() == Idle
      ensures Consistent()
    {
      this.nlp := nlp;
      var reg := DefaultRegistry();
      names := reg.names;
      enabled := reg.enabled;
      related := reg.related;
      colors := reg.colors;
      filename := None;
      sentences := None;
      hasAudio := false;
      isPlaying := false;
      stopRequested := false;
      DefaultRegistryMeaning();
    }

    /** `add_custom_topic` with the text of the entry field. */
    method AddCustomTopic(newTopic: string)
      modifies this
      ensures Reg() == AddTopic(old(Reg()), newTopic)
      ensures filename == old(filename) && sentences == old(sentences)
      ensures hasAudio == old(hasAudio) && Play() == old(Play())
      ensures old(Consistent()) ==> Consistent()
    {
      ghost var before := Reg();
      if newTopic != "" && newTopic !in enabled {
        names := names + [newTopic];
        enabled := enabled[newTopic := true];
        related := related[newTopic := [newTopic]];
      }
      if Valid(before) {
        AddTopicMeaning(before, newTopic);
      }
    }

    /** Ticking or unticking the check box of a topic. */
    method SetTopicEnabled(name: string, on: bool)
      modifies this
      ensures Reg() == SetEnabled(old(Reg()), name, on)
      ensures filename == old(filename) && sentences == old(sentences)
      ensures hasAudio == old(hasAudio) && Play() == old(Play())
      ensures old(Consistent()) ==> Consistent()
    {
      ghost var before := Reg();
      if name in enabled {
        enabled := enabled[name := on];
      }
      if Valid(before) {
        SetEnabledMeaning(before, name, on);
      }
    }

    /** `select_file`: the dialog's answer is stored in any case. For a
        chosen file the waveform is plotted first: `plotted` says whether
        `librosa.load` reads the file. When it raises, the exception leaves
        the handler before the playback audio is loaded, so the previous
        audio stays. Otherwise `decodes` says whether the playback load
        succeeds with a non-empty segment. That load is `AudioSegment.from_file`,
        the WAV export and the pygame load, all inside one `try`. */
    method SelectFile(chosen: string, plotted: bool, decodes: bool)
      modifies this
      ensures filename == Some(chosen)
      ensures hasAudio == if chosen != "" && plotted then decodes else old(hasAudio)
      ensures Reg() == old(Reg()) && sentences == old(sentences) && Play() == old(Play())
      ensures old(Consistent()) ==> Consistent()
    {
      filename := Some(chosen);
      if chosen != "" && plotted {
        hasAudio := decodes;
      }
    }

    /** `process_audio`: nothing before a file was chosen; otherwise the
        transcription of the file (or its exception, shown in an error box)
        and, on success, the stripped sentences are stored. */
    method ProcessAudio(transcript: Result<seq<Segment>>)
      modifies this
      ensures sentences == if old(filename).Some? && transcript.Ok?
                           then Some(StoredSentences(transcript.value)) else old(sentences)
      ensures Reg() == old(Reg()) && filename == old(filename)
      ensures hasAudio == old(hasAudio) && Play() == old(Play())
      ensures old(Consistent()) ==> Consistent()
    {
      if filename.None? {
        return;
      }
      match transcript
      case Err(_) =>
      case Ok(segs) =>
        var stored: seq<Sentence> := [];
        var i := 0;
        while i < |segs|
          invariant i <= |segs| && stored == StoredSentences(segs[..i])
        {
          stored := stored + [Sentence(Strip(segs[i].text), segs[i].start, segs[i].end)];
          i := i + 1;
        }
        assert segs[..|segs|] == segs;
        sentences := Some(stored);
    }

    /** `find_similar_words(text, topic)`: the anchors are the first tokens
        of the topic name and of each related word; then every content token
        of the lower-cased text is compared with the anchors until one fires. */
    method FindSimilarWords(text: string, topic: string) returns (r: Result<set<string>>)
      ensures r == SimilarWordsFor(nlp, related, text, topic)
    {
      var doc := nlp.parse(Lower(text));
      var relatedWords := RelatedOf(related, topic);
      var topicTokens := TopicTokens(nlp, [topic] + relatedWords);
      if topicTokens.Err? {
        return Err(topicTokens.fault);
      }
      var similar := CollectSimilar(nlp, doc, topicTokens.value);
      return Ok(similar);
    }

    /** `find_sensitive_content(sentence, topic)`. */
    method FindSensitiveContent(sentence: string, topic: string) returns (r: Result<(bool, set<string>)>)
      ensures r == SensitiveContentFor(nlp, related, sentence, topic)
    {
      var similar := FindSimilarWords(sentence, topic);
      match similar
      case Err(f) => r := Err(f);
      case Ok(words) => r := Ok((|words| > 0, words));
    }

    /** The body of the inner loop of `search_sensitive_topics` for one
        topic: nothing for an unticked or unflagged topic, the lookup's
        exception, a `KeyError` for a missing related-words or colour entry,
        or the new entry of `matches`. */
    method ExamineTopic(s: Sentence, topic: string) returns (e: Result<Option<Match>>)
      ensures e == Examine(Finder(), Reg(), s, topic)
    {
      if !(topic in enabled && enabled[topic]) {
        return Ok(None);
      }
      var r := FindSensitiveContent(s.text, topic);
      if r.Err? {
        return Err(r.fault);
      }
      var isSensitive := r.value.0;
      var similarWords := r.value.1;
      if !isSensitive {
        return Ok(None);
      }
      if topic !in related {
        return Err(KeyError(topic));
      }
      var relatedWords := Join(", ", related[topic]);
      if topic !in colors {
        return Err(KeyError(topic));
      }
      return Ok(Some(Match(topic, s, relatedWords, similarWords, colors[topic])));
    }

    /** The inner loop of `search_sensitive_topics` for one sentence: its
        `topics_found` and its `matches` entries, or the first exception. */
    method SearchSentence(s: Sentence) returns (r: Result<(seq<Found>, seq<Match>)>)
      ensures SearchTopics(Finder(), Reg(), s, names).Err? ==> r == Err(SearchTopics(Finder(), Reg(), s, names).fault)
      ensures SearchTopics(Finder(), Reg(), s, names).Ok? ==>
                var ms := SearchTopics(Finder(), Reg(), s, names).value;
                r == Ok((Founds(ms), ms))
    {
      var topicsFound: seq<Found> := [];
      var matches: seq<Match> := [];
      var j := 0;
      while j < |names|
        invariant j <= |names|
        invariant SearchTopics(Finder(), Reg(), s, names[..j]) == Ok(matches)
        invariant |topicsFound| == |matches|
        invariant forall k :: 0 <= k < |matches| ==> topicsFound[k] == Found(matches[k].topic, matches[k].detected)
      {
        var e := ExamineTopic(s, names[j]);
        SearchTopicsSnoc(Finder(), Reg(), s, names, j, matches);
        if e.Err? {
          SearchTopicsErrPrefix(Finder(), Reg(), s, names, j + 1);
          return Err(e.fault);
        }
        if e.value.Some? {
          var m := e.value.value;
          topicsFound := topicsFound + [Found(m.topic, m.detected)];
          matches := matches + [m];
        }
        j := j + 1;
      }
      assert names[..j] == names;
      assert topicsFound == Founds(matches);
      return Ok((topicsFound, matches));
    }

    /** `search_sensitive_topics`: for every stored sentence, its frame with
        the topics found in it, then the listing of all matches or the
        "nothing detected" notice. An exception ends the sweep, leaving the
        frames of the sentences before it and an empty results area. */
    method SearchSensitiveTopics() returns (outcome: SearchOutcome)
      ensures outcome == Search(Finder(), Reg(), sentences)
    {
      if sentences.None? {
        return NoTranscript;
      }
      var ss := sentences.value;
      var frames: seq<Frame> := [];
      var matches: seq<Match> := [];
      var i := 0;
      while i < |ss|
        invariant i <= |ss|
        invariant SearchSentences(Finder(), Reg(), ss[..i]) == Ok((frames, matches))
      {
        assert ss[..i + 1][..i] == ss[..i];
        var r := SearchSentence(ss[i]);
        if r.Err? {
          FramesDrawnAt(Finder(), Reg(), ss, i);
          return Crashed(frames, r.fault);
        }
        frames := frames + [Frame(ss[i], r.value.0)];
        matches := matches + r.value.1;
        i := i + 1;
      }
      assert ss[..i] == ss;
      if matches == [] {
        outcome := Searched(frames, Notice(NothingDetected));
      } else {
        outcome := Searched(frames, Listing(matches));
      }
    }

    /** The file name the report prints. */
    function ReportedName(): string
      reads this
    {
      match filename
      case Some(f) => f
      case None => ""
    }

    /** The inner loop of the report's findings for one sentence: a finding
        per flagged ticked topic, or the first exception of a lookup. */
    method ReportSentence(s: Sentence) returns (r: Result<seq<Entry>>)
      ensures r == ReportTopics(Finder(), Reg(), s, names)
    {
      var findings: seq<Entry> := [];
      var j := 0;
      while j < |names|
        invariant j <= |names|
        invariant ReportTopics(Finder(), Reg(), s, names[..j]) == Ok(findings)
      {
        var topic := names[j];
        assert names[..j + 1][..j] == names[..j];
        if topic in enabled && enabled[topic] {
          var found := FindSensitiveContent(s.text, topic);
          if found.Err? {
            ReportTopicsErrPrefix(Finder(), Reg(), s, names, j + 1);
            return Err(found.fault);
          }
          if found.value.0 {
            findings := findings + [Finding(topic, s, found.value.1)];
          }
        }
        j := j + 1;
      }
      assert names[..j] == names;
      return Ok(findings);
    }

    /** The findings section of the report: every finding, sentence by
        sentence, or the first exception; `foundTopics` is the flag the
        source keeps to decide on the closing line. */
    method ReportFindings(ss: seq<Sentence>) returns (r: Result<seq<Entry>>, foundTopics: bool)
      ensures r == ReportSentences(Finder(), Reg(), ss)
      ensures foundTopics <==> r.Ok? && r.value != []
    {
      var findings: seq<Entry> := [];
      foundTopics := false;
      var i := 0;
      while i < |ss|
        invariant i <= |ss|
        invariant ReportSentences(Finder(), Reg(), ss[..i]) == Ok(findings)
        invariant foundTopics <==> findings != []
      {
        assert ss[..i + 1][..i] == ss[..i];
        var f := ReportSentence(ss[i]);
        if f.Err? {
          ReportSentencesErrPrefix(Finder(), Reg(), ss, i + 1);
          return Err(f.fault), false;
        }
        if f.value != [] {
          foundTopics := true;
        }
        findings := findings + f.value;
        i := i + 1;
      }
      assert ss[..i] == ss;
      r := Ok(findings);
    }

    /** `generate_pdf_report`: `path` is the save dialog's answer, `when`
        the formatted current time, `file` the bytes of the selected file
        (none when it cannot be opened), `digestOf` SHA-256 and `written`
        whether the PDF library renders and saves the document. The header,
        the transcript and the findings are written in order; a lookup
        exception, an unreadable file or a failing PDF library ends in an
        error box. */
    method GenerateReport(path: string, when: string, file: Option<seq<byte>>,
                          digestOf: seq<byte> -> seq<byte>, written: bool) returns (outcome: ReportOutcome)
      ensures outcome == Report(Finder(), Reg(), sentences, path, when, ReportedName(), file, digestOf, written)
    {
      if sentences.None? {
        return NoTranscriptToReport;
      }
      if path == "" {
        return Cancelled;
      }
      if file.None? {
        return Failed(IOError);
      }
      outcome := WriteReport(sentences.value, path, when, file.value, digestOf, written);
    }

    /** The `try` block of `generate_pdf_report` once the file's bytes are
        read: the hash, the header, the transcript and the findings, or the
        exception of a lookup or of the PDF library. */
    method WriteReport(ss: seq<Sentence>, path: string, when: string, bytes: seq<byte>,
                       digestOf: seq<byte> -> seq<byte>, written: bool) returns (outcome: ReportOutcome)
      ensures ReportSentences(Finder(), Reg(), ss).Err? ==> outcome == Failed(ReportSentences(Finder(), Reg(), ss).fault)
      ensures ReportSentences(Finder(), Reg(), ss).Ok? && !written ==> outcome == Failed(WriteError)
      ensures ReportSentences(Finder(), Reg(), ss).Ok? && written ==>
                var fs := ReportSentences(Finder(), Reg(), ss).value;
                outcome == Saved(path, ReportEntries(when, ReportedName(), Hex(digestOf(bytes)), ss, fs))
    {
      var fileHash, _ := CalculateFileHash(bytes, digestOf);
      var header := Header(when, ReportedName(), fileHash);
      var lines := WriteTranscript(ss);
      var findings, foundTopics := ReportFindings(ss);
      if findings.Err? {
        return Failed(findings.fault);
      }
      if !written {
        return Failed(WriteError);
      }
      var closing: seq<Entry> := [];
      if !foundTopics {
        closing := [NothingFound];
      }
      outcome := Saved(path, header + (lines + ([FindingsHeading] + (findings.value + closing))));
    }

    /** `start_playback`. */
    method StartPlayback()
      modifies this
      ensures Play() == Start(old(hasAudio), old(Play()))
      ensures Reg() == old(Reg()) && filename == old(filename) && sentences == old(sentences)
      ensures hasAudio == old(hasAudio)
    {
      if !hasAudio || isPlaying {
        return;
      }
      isPlaying := true;
      stopRequested := false;
    }

    /** `stop_playback`. */
    method StopPlayback()
      modifies this
      ensures Play() == Stop(old(Play()))
      ensures Reg() == old(Reg()) && filename == old(filename) && sentences == old(sentences)
      ensures hasAudio == old(hasAudio)
    {
      if isPlaying {
        stopRequested := true;
        isPlaying := false;
      }
    }

    /** The `finally` block of `play_audio`. */
    method PlayAudioFinally()
      modifies this
      ensures Play() == Finished(old(Play()))
      ensures Reg() == old(Reg()) && filename == old(filename) && sentences == old(sentences)
      ensures hasAudio == old(hasAudio)
    {
      isPlaying := false;
    }

    /** `toggle_playback`. */
    method TogglePlayback()
      modifies this
      ensures Play() == Toggle(old(hasAudio), old(Play()))
      ensures Reg() == old(Reg()) && filename == old(filename) && sentences == old(sentences)
      ensures hasAudio == old(hasAudio)
    {
      if isPlaying {
        StopPlayback();
      } else {
        StartPlayback();
      }
    }

    /** `play_segment`: with audio, playback is stopped before the segment
        plays. */
    method PlaySegment(startTime: real, endTime: real)
      modifies this
      ensures Play() == Playback.PlaySegment(old(hasAudio), old(Play()))
      ensures Reg() == old(Reg()) && filename == old(filename) && sentences == old(sentences)
      ensures hasAudio == old(hasAudio)
    {
      if hasAudio {
        StopPlayback();
      }
    }
  }
}
