/**
  The topic analysis of the web front end, app.py: `analyze_audio` lower-cases
  the transcription, splits it into tokens and, for every topic of
  `SENSITIVE_TOPICS` the form selected, lists the context of each token that
  is one of the topic's keywords: the token with up to five tokens on either
  side, joined by spaces. Matching is exact membership of a token in the
  keyword list. The transcription itself and the tokenizer are given.
 */
module WebApp {
  import opened Text

  /** A topic of the table and its keywords. */
  datatype Topic = Topic(name: string, keywords: seq<string>)

  /** `SENSITIVE_TOPICS`, in the order of the dictionary display. */
  const SensitiveTopics: seq<Topic> := [
    Topic("drogas", ["droga", "cocaina", "maconha", "crack", "tráfico"]),
    Topic("morte", ["morte", "assassinato", "homicídio", "matar", "morrer"]),
    Topic("crimes_sexuais", ["estupro", "abuso", "violência sexual", "assédio"]),
    Topic("familia", ["irmão", "irmã", "pai", "mãe", "filho", "filha", "família",
                      "irmãos", "irmãs", "pais", "filhos", "filhas"])
  ]

  /** How many tokens a context takes on each side of the keyword. */
  const Radius: nat := 5

  /** The path of the waveform image the analysis reports. */
  const WaveformPath: string := "static/audio_waveform.png"

  /** No two topics of the table share a name, as the keys of a dictionary
      (the four names of `SensitiveTopics` differ in length). */
  predicate DistinctNames(table: seq<Topic>) {
    forall a, b :: 0 <= a < b < |table| ==> table[a].name != table[b].name
  }

  lemma SensitiveTopicsDistinct()
    ensures DistinctNames(SensitiveTopics)
  {
    var t := SensitiveTopics;
    forall a, b | 0 <= a < b < |t| ensures t[a].name != t[b].name {
      assert |t[a].name| != |t[b].name|;
    }
  }

  /** First index of the window around token `i`: `max(0, i - 5)`. */
  function WindowStart(i: nat): nat {
    if i >= Radius then i - Radius else 0
  }

  /** One past the last index of the window: `min(len(tokens), i + 6)`. */
  function WindowEnd(n: nat, i: nat): nat {
    if i + Radius + 1 <= n then i + Radius + 1 else n
  }

  /** `tokens[max(0, i-5):min(len(tokens), i+6)]`. */
  function Window(tokens: seq<string>, i: nat): seq<string>
    requires i < |tokens|
  {
    tokens[WindowStart(i)..WindowEnd(|tokens|, i)]
  }

  /** `' '.join(...)` of the window. */
  function Context(tokens: seq<string>, i: nat): string
    requires i < |tokens|
  {
    Join(" ", Window(tokens, i))
  }

  /** The window holds one to eleven tokens: the keyword itself, at most five
      before it and at most five after it, all consecutive tokens of the
      input; it reaches five tokens back unless the input starts sooner, and
      five tokens on unless the input ends sooner. */
  lemma WindowMeaning(tokens: seq<string>, i: nat)
    requires i < |tokens|
    ensures var w := Window(tokens, i);
            var lo := WindowStart(i);
            && 1 <= |w| <= 2 * Radius + 1
            && lo <= i < lo + |w|
            && w[i - lo] == tokens[i]
            && (forall k :: 0 <= k < |w| ==> w[k] == tokens[lo + k])
            && i - lo == (if i < Radius then i else Radius)
            && lo + |w| - 1 - i == (if i + Radius < |tokens| then Radius else |tokens| - 1 - i)
  {
  }

  /** The keyword appears, unchanged, inside its context. */
  lemma ContextHoldsKeyword(tokens: seq<string>, i: nat) returns (off: nat)
    requires i < |tokens|
    ensures off + |tokens[i]| <= |Context(tokens, i)|
    ensures Context(tokens, i)[off..off + |tokens[i]|] == tokens[i]
  {
    var w := Window(tokens, i);
    WindowMeaning(tokens, i);
    off := JoinOffset(" ", w, i - WindowStart(i));
  }

  /** The indices, below `n`, of the tokens that are keywords, in increasing
      order. */
  function KeywordHits(tokens: seq<string>, keywords: seq<string>, n: nat): seq<nat>
    requires n <= |tokens|
  {
    if n == 0 then []
    else KeywordHits(tokens, keywords, n - 1) + (if tokens[n - 1] in keywords then [n - 1] else [])
  }

  /** The contexts the inner loop appends for the first `n` tokens. */
  function Contexts(tokens: seq<string>, keywords: seq<string>, n: nat): seq<string>
    requires n <= |tokens|
  {
    if n == 0 then []
    else Contexts(tokens, keywords, n - 1) + (if tokens[n - 1] in keywords then [Context(tokens, n - 1)] else [])
  }

  /** The hits are exactly the keyword positions below `n`, each once, in
      increasing order. */
  lemma {:induction false} KeywordHitsMeaning(tokens: seq<string>, keywords: seq<string>, n: nat)
    requires n <= |tokens|
    ensures var hits := KeywordHits(tokens, keywords, n);
            && (forall m :: 0 <= m < |hits| ==> hits[m] < n && tokens[hits[m]] in keywords)
            && (forall m, l :: 0 <= m < l < |hits| ==> hits[m] < hits[l])
            && (forall i :: 0 <= i < n && tokens[i] in keywords ==> i in hits)
  {
    if n > 0 {
      KeywordHitsMeaning(tokens, keywords, n - 1);
      var hits0 := KeywordHits(tokens, keywords, n - 1);
      if tokens[n - 1] in keywords {
        assert KeywordHits(tokens, keywords, n) == hits0 + [n - 1];
      } else {
        assert KeywordHits(tokens, keywords, n) == hits0;
      }
    }
  }

  /** There is one context per hit, in the same order: the hit's own. */
  lemma {:induction false} ContextsMeaning(tokens: seq<string>, keywords: seq<string>, n: nat)
    requires n <= |tokens|
    ensures var hits := KeywordHits(tokens, keywords, n);
            var cs := Contexts(tokens, keywords, n);
            && |cs| == |hits|
            && (forall m :: 0 <= m < |hits| ==> hits[m] < |tokens| && cs[m] == Context(tokens, hits[m]))
  {
    if n > 0 {
      ContextsMeaning(tokens, keywords, n - 1);
      var hits0 := KeywordHits(tokens, keywords, n - 1);
      var cs0 := Contexts(tokens, keywords, n - 1);
      if tokens[n - 1] in keywords {
        assert KeywordHits(tokens, keywords, n) == hits0 + [n - 1];
        assert Contexts(tokens, keywords, n) == cs0 + [Context(tokens, n - 1)];
      } else {
        assert KeywordHits(tokens, keywords, n) == hits0;
        assert Contexts(tokens, keywords, n) == cs0;
      }
    }
  }

  /** The number of contexts is the number of tokens that are keywords. */
  lemma {:induction false} ContextsCount(tokens: seq<string>, keywords: seq<string>, n: nat)
    requires n <= |tokens|
    ensures |Contexts(tokens, keywords, n)| == |set i | 0 <= i < n && tokens[i] in keywords|
  {
    if n > 0 {
      ContextsCount(tokens, keywords, n - 1);
      var before := set i | 0 <= i < n - 1 && tokens[i] in keywords;
      var now := set i | 0 <= i < n && tokens[i] in keywords;
      if tokens[n - 1] in keywords {
        assert now == before + {n - 1};
      } else {
        assert now == before;
      }
    }
  }

  /** The names of the topics of `table` that appear in `selected`, in table
      order. */
  function SelectedNames(table: seq<Topic>, selected: seq<string>): seq<string>
  {
    if table == [] then []
    else
      var last := table[|table| - 1];
      SelectedNames(table[..|table| - 1], selected) + (if last.name in selected then [last.name] else [])
  }

  /** The selected names are, in table order, exactly the table's names that
      were selected; a selected name the table does not know is ignored. */
  lemma {:induction false} SelectedNamesMeaning(table: seq<Topic>, selected: seq<string>) returns (ti: seq<nat>)
    ensures var ks := SelectedNames(table, selected);
            && |ti| == |ks|
            && (forall m :: 0 <= m < |ti| ==> ti[m] < |table| && ks[m] == table[ti[m]].name && ks[m] in selected)
            && (forall m, l :: 0 <= m < l < |ti| ==> ti[m] < ti[l])
            && (forall a :: 0 <= a < |table| && table[a].name in selected ==> a in ti)
  {
    if table == [] {
      ti := [];
    } else {
      var n := |table| - 1;
      var ks0 := SelectedNames(table[..n], selected);
      var ti0 := SelectedNamesMeaning(table[..n], selected);
      forall m | 0 <= m < |ti0| ensures table[..n][ti0[m]] == table[ti0[m]] { }
      if table[n].name in selected {
        assert SelectedNames(table, selected) == ks0 + [table[n].name];
        ti := ti0 + [n];
      } else {
        assert SelectedNames(table, selected) == ks0;
        ti := ti0;
      }
    }
  }

  /** A name is among the selected names exactly when the table has it and
      it was selected. */
  lemma SelectedNamesMembers(table: seq<Topic>, selected: seq<string>, k: string)
    ensures k in SelectedNames(table, selected)
            <==> k in selected && exists a :: 0 <= a < |table| && table[a].name == k
  {
    var ti := SelectedNamesMeaning(table, selected);
    var ks := SelectedNames(table, selected);
    if k in ks {
      var m :| 0 <= m < |ks| && ks[m] == k;
      assert table[ti[m]].name == k;
    }
    if k in selected && exists a :: 0 <= a < |table| && table[a].name == k {
      var a :| 0 <= a < |table| && table[a].name == k;
      var m :| 0 <= m < |ti| && ti[m] == a;
      assert ks[m] == k;
    }
  }

  /** The inner loop: the contexts of every keyword of `keywords` in
      `tokens`. */
  method TopicContexts(tokens: seq<string>, keywords: seq<string>) returns (contexts: seq<string>)
    ensures contexts == Contexts(tokens, keywords, |tokens|)
  {
    contexts := [];
    var i := 0;
    while i < |tokens|
      invariant i <= |tokens|
      invariant contexts == Contexts(tokens, keywords, i)
    {
      var token := tokens[i];
      if token in keywords {
        var lo := if i - 5 >= 0 then i - 5 else 0;
        var hi := if |tokens| <= i + 6 then |tokens| else i + 6;
        var context := Join(" ", tokens[lo..hi]);
        contexts := contexts + [context];
      }
      i := i + 1;
    }
  }

  /** The topic loop of `analyze_audio` over a table of distinct topics:
      `keys` is the key order of `found_topics` and `found` its entries. Every
      selected topic of the table gets an entry, an empty list when none of
      its keywords occurs; no other name gets one. */
  method FindTopics(table: seq<Topic>, tokens: seq<string>, selected: seq<string>)
    returns (keys: seq<string>, found: map<string, seq<string>>)
    requires DistinctNames(table)
    ensures keys == SelectedNames(table, selected)
    ensures forall k :: k in found <==> k in keys
    ensures forall a :: 0 <= a < |table| && table[a].name in found ==>
              found[table[a].name] == Contexts(tokens, table[a].keywords, |tokens|)
  {
    keys := [];
    found := map[];
    var t := 0;
    while t < |table|
      invariant t <= |table|
      invariant keys == SelectedNames(table[..t], selected)
      invariant forall k :: k in found <==> k in keys
      invariant forall a :: 0 <= a < t && table[a].name in found ==>
                  found[table[a].name] == Contexts(tokens, table[a].keywords, |tokens|)
      invariant forall a :: t <= a < |table| ==> table[a].name !in found
    {
      assert table[..t + 1][..t] == table[..t];
      var topic := table[t].name;
      var keywords := table[t].keywords;
      if topic in selected {
        keys := keys + [topic];
        var contexts := TopicContexts(tokens, keywords);
        found := found[topic := contexts];
      }
      t := t + 1;
    }
    assert table[..t] == table;
  }

  /** What `analyze_audio` returns: the transcription, the topics found (key
      order and entries) and the waveform path. */
  datatype Analysis = Analysis(transcription: string, topicOrder: seq<string>,
                               topics: map<string, seq<string>>, waveform: string)

  /** `analyze_audio(audio_path, selected_topics)`, given the transcription
      and the tokenizer `word_tokenize`: the tokens are those of the
      lower-cased transcription. */
  method AnalyzeAudio(transcription: string, wordTokenize: string -> seq<string>, selected: seq<string>)
    returns (result: Analysis)
    ensures result.transcription == transcription && result.waveform == WaveformPath
    ensures result.topicOrder == SelectedNames(SensitiveTopics, selected)
    ensures forall k :: k in result.topics <==> k in result.topicOrder
    ensures forall a :: 0 <= a < |SensitiveTopics| && SensitiveTopics[a].name in result.topics ==>
              var tokens := wordTokenize(Lower(transcription));
              result.topics[SensitiveTopics[a].name] == Contexts(tokens, SensitiveTopics[a].keywords, |tokens|)
  {
    var tokens := wordTokenize(Lower(transcription));
    SensitiveTopicsDistinct();
    var keys, found := FindTopics(SensitiveTopics, tokens, selected);
    result := Analysis(transcription, keys, found, WaveformPath);
  }

  /** The keyword "violência sexual" holds a space, so it never equals a
      token of a tokenizer that splits at white space: only the three
      one-word keywords of `crimes_sexuais` can contribute a context. */
  lemma MultiWordKeywordNeverMatches(tokens: seq<string>, i: nat)
    requires i < |tokens| && ' ' !in tokens[i]
    ensures tokens[i] != SensitiveTopics[2].keywords[2]
    ensures tokens[i] in SensitiveTopics[2].keywords <==> tokens[i] in ["estupro", "abuso", "assédio"]
  {
    assert SensitiveTopics[2].keywords[2][9] == ' ';
  }
}
