/**
  The session object of audio_analyzer.py (`AudioAnalyzerApp`): the
  insertion-ordered `topics` dictionary of check boxes, the selected file, the
  `is_playing` flag and the text `process_audio` displays. The displayed text
  is the transcription with every ticked topic, in insertion order,
  highlighted by the loop `Highlight.HighlightTopic` models.
 */
module AudioAnalyzer {
  import opened Wrappers
  import opened Text
  import opened Highlight
  import opened Playback

  /** The topics `setup_ui` creates, all ticked. */
  const DefaultTopics: seq<string> := ["Drogas", "Morte", "Crimes Sexuais"]

  /** The topic is in the dictionary and its box is ticked. */
  predicate Ticked(enabled: map<string, bool>, topic: string) {
    topic in enabled && enabled[topic]
  }

  /** The text after the highlighting loop has handled the topics `names`, in
      order, starting from `text`: each ticked topic is highlighted in the text
      as the previous topics left it. */
  function HighlightAll(text: string, names: seq<string>, enabled: map<string, bool>): string
  {
    if names == [] then text
    else
      var before := HighlightAll(text, names[..|names| - 1], enabled);
      var topic := names[|names| - 1];
      if Ticked(enabled, topic) then StaleHighlight(before, Lower(before), Lower(topic), 0) else before
  }

  /** How many pairs of markers the loop inserts for the topics `names`. */
  function Insertions(text: string, names: seq<string>, enabled: map<string, bool>): nat
  {
    if names == [] then 0
    else
      var before := HighlightAll(text, names[..|names| - 1], enabled);
      var topic := names[|names| - 1];
      Insertions(text, names[..|names| - 1], enabled)
        + (if Ticked(enabled, topic) then |StaleHits(Lower(before), Lower(topic), 0)| else 0)
  }

  /** The displayed text is the transcription grown by four characters for
      every pair of markers inserted. */
  lemma {:induction false} HighlightAllLength(text: string, names: seq<string>, enabled: map<string, bool>)
    ensures |HighlightAll(text, names, enabled)| == |text| + 4 * Insertions(text, names, enabled)
  {
    if names != [] {
      var pre := names[..|names| - 1];
      var before := HighlightAll(text, pre, enabled);
      var topic := names[|names| - 1];
      HighlightAllLength(text, pre, enabled);
      if Ticked(enabled, topic) {
        StaleLength(before, Lower(before), Lower(topic), 0);
      }
    }
  }

  /** The topics of `names` whose box is ticked, in order: every topic kept
      is ticked and every ticked topic is kept. */
  function TickedOnly(names: seq<string>, enabled: map<string, bool>): (r: seq<string>)
    ensures |r| <= |names|
    ensures forall k :: 0 <= k < |r| ==> Ticked(enabled, r[k]) && r[k] in names
    ensures forall n :: n in names && Ticked(enabled, n) ==> n in r
  {
    if names == [] then []
    else
      var pre := TickedOnly(names[..|names| - 1], enabled);
      var topic := names[|names| - 1];
      assert forall n :: n in names ==> n in names[..|names| - 1] || n == topic;
      if Ticked(enabled, topic) then pre + [topic] else pre
  }

  /** The filter keeps the order of the dictionary: one more topic is
      appended exactly when it is ticked. */
  lemma TickedOnlySnoc(names: seq<string>, t: string, enabled: map<string, bool>)
    ensures TickedOnly(names + [t], enabled)
            == TickedOnly(names, enabled) + (if Ticked(enabled, t) then [t] else [])
  {
    assert (names + [t])[..|names|] == names;
  }

  /** Unticked topics play no part: the displayed text is the one obtained
      from the ticked topics alone. */
  lemma {:induction false} UntickedTopicsIgnored(text: string, names: seq<string>, enabled: map<string, bool>)
    ensures HighlightAll(text, names, enabled) == HighlightAll(text, TickedOnly(names, enabled), enabled)
  {
    if names != [] {
      var pre := names[..|names| - 1];
      var topic := names[|names| - 1];
      UntickedTopicsIgnored(text, pre, enabled);
      if Ticked(enabled, topic) {
        var kept := TickedOnly(pre, enabled) + [topic];
        assert kept[..|kept| - 1] == TickedOnly(pre, enabled);
      }
    }
  }

  /** With no ticked topic the transcription is displayed as it is. */
  lemma NothingTickedNothingChanged(text: string, names: seq<string>, enabled: map<string, bool>)
    requires forall k :: 0 <= k < |names| ==> !Ticked(enabled, names[k])
    ensures HighlightAll(text, names, enabled) == text
  {
    UntickedTopicsIgnored(text, names, enabled);
    if TickedOnly(names, enabled) != [] {
      assert false;
    }
  }

  /** The `for topic, var in self.topics.items()` loop of `process_audio`:
      each ticked topic, in insertion order, is highlighted in the text the
      previous topics left. */
  method HighlightTopics(transcription: string, names: seq<string>, enabled: map<string, bool>)
    returns (highlighted: string)
    ensures highlighted == HighlightAll(transcription, names, enabled)
  {
    highlighted := transcription;
    var j := 0;
    while j < |names|
      invariant j <= |names|
      invariant highlighted == HighlightAll(transcription, names[..j], enabled)
    {
      assert names[..j + 1][..j] == names[..j];
      var topic := names[j];
      if topic in enabled && enabled[topic] {
        highlighted := HighlightTopic(highlighted, topic);
      }
      j := j + 1;
    }
    assert names[..j] == names;
  }

  class AnalyzerApp {
    /** `topics`: key order and check boxes. */
    var names: seq<string>
    var enabled: map<string, bool>
    /** `self.filename` (absent until a file is chosen; "" when the dialog
        is cancelled). */
    var filename: Option<string>
    /** Whether `self.audio_segment` is a non-empty segment. */
    var hasAudio: bool
    var isPlaying: bool
    /** The contents of `transcription_text`. */
    var shown: string

    /** Every topic has one check box and is listed once. */
    ghost predicate Valid()
      reads this
    {
      && (forall i, j :: 0 <= i < j < |names| ==> names[i] != names[j])
      && (forall n :: n in enabled <==> n in names)
    }

    /** `__init__` and `setup_ui`: the three default topics, ticked; no
        file, no audio, nothing playing and an empty text area. */
    constructor()
      ensures names == DefaultTopics
      ensures forall n :: Ticked(enabled, n) <==> n in DefaultTopics
      ensures filename == None && !hasAudio && !isPlaying && shown == ""
      ensures Valid()
    {
      names := DefaultTopics;
      enabled := map n | n in DefaultTopics :: true;
      filename := None;
      hasAudio := false;
      isPlaying := false;
      shown := "";
    }

    /** `select_file`: the dialog's answer is stored in any case. For a
        chosen file the waveform is plotted first: `plotted` says whether
        `librosa.load` reads the file. When it raises, the exception leaves
        the handler before the playback audio is loaded, so the previous
        audio stays. Otherwise `decodes` says whether `AudioSegment.from_file`
        yields a non-empty segment. */
    method SelectFile(chosen: string, plotted: bool, decodes: bool)
      modifies this
      ensures filename == Some(chosen)
      ensures hasAudio == if chosen != "" && plotted then decodes else old(hasAudio)
      ensures names == old(names) && enabled == old(enabled)
      ensures isPlaying == old(isPlaying) && shown == old(shown)
    {
      filename := Some(chosen);
      if chosen != "" && plotted {
        hasAudio := decodes;
      }
    }

    /** `add_custom_topic` with the text of the entry field: a non-empty new
        name is added last, ticked; otherwise nothing changes. */
    method AddCustomTopic(newTopic: string)
      modifies this
      ensures newTopic != "" && newTopic !in old(enabled) ==>
                names == old(names) + [newTopic] && enabled == old(enabled)[newTopic := true]
      ensures newTopic == "" || newTopic in old(enabled) ==>
                names == old(names) && enabled == old(enabled)
      ensures filename == old(filename) && hasAudio == old(hasAudio)
      ensures isPlaying == old(isPlaying) && shown == old(shown)
      ensures old(Valid()) ==> Valid()
    {
      if newTopic != "" && newTopic !in enabled {
        ghost var before := names;
        names := names + [newTopic];
        enabled := enabled[newTopic := true];
        assert forall i :: 0 <= i < |before| ==> names[i] == before[i];
      }
    }

    /** Ticking or unticking the check box of a topic. */
    method SetTopicEnabled(name: string, on: bool)
      modifies this
      ensures enabled == if name in old(enabled) then old(enabled)[name := on] else old(enabled)
      ensures names == old(names) && filename == old(filename) && hasAudio == old(hasAudio)
      ensures isPlaying == old(isPlaying) && shown == old(shown)
      ensures old(Valid()) ==> Valid()
    {
      if name in enabled {
        enabled := enabled[name := on];
      }
    }

    /** `toggle_play`: nothing without audio; otherwise `is_playing` flips,
        and a playing thread is started when it turns on. */
    method TogglePlay() returns (threadStarted: bool)
      modifies this
      ensures isPlaying == Playback.TogglePlay(old(hasAudio), old(isPlaying))
      ensures threadStarted <==> old(hasAudio) && !old(isPlaying)
      ensures names == old(names) && enabled == old(enabled) && filename == old(filename)
      ensures hasAudio == old(hasAudio) && shown == old(shown)
    {
      threadStarted := false;
      if !hasAudio {
        return;
      }
      if isPlaying {
        isPlaying := false;
      } else {
        isPlaying := true;
        threadStarted := true;
      }
    }

    /** The `finally` block of `play_audio`, run when the thread ends. */
    method PlayAudioFinally()
      modifies this
      ensures !isPlaying
      ensures names == old(names) && enabled == old(enabled) && filename == old(filename)
      ensures hasAudio == old(hasAudio) && shown == old(shown)
    {
      isPlaying := false;
    }

    /** `process_audio`: nothing before a file was chosen; otherwise the
        transcription of the file (or the exception of the transcriber, which
        ends the call) is highlighted topic by topic and displayed. */
    method ProcessAudio(transcription: Result<string>)
      modifies this
      ensures shown == if old(filename).Some? && transcription.Ok?
                       then HighlightAll(transcription.value, names, enabled) else old(shown)
      ensures names == old(names) && enabled == old(enabled) && filename == old(filename)
      ensures hasAudio == old(hasAudio) && isPlaying == old(isPlaying)
    {
      if filename.None? || transcription.Err? {
        return;
      }
      var highlighted := HighlightTopics(transcription.value, names, enabled);
      shown := highlighted;
    }
  }
}
