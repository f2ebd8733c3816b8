/**
  Semantic topic matching of raio.py (`find_similar_words` and
  `find_sensitive_content`), stated as functions. The spaCy pipeline is taken
  as given data: what `nlp(x)` yields for a string and whether the similarity
  of two tokens exceeds the threshold. The loop that computes the same set is
  `Raio.RaioApp.FindSimilarWords`.
 */
module TopicMatching {
  import opened Text
  import opened Wrappers

  /** A token of a spaCy `Doc`, reduced to the attributes the matcher reads. */
  datatype Token = Token(text: string, hasVector: bool, isStop: bool, isPunct: bool)

  /** The language pipeline: `parse(x)` is the token sequence of `nlp(x)`, and
      `exceeds(token, anchor)` stands for
      `token.similarity(anchor) > similarity_threshold` (the threshold is 0.5). */
  datatype Nlp = Nlp(parse: string -> seq<Token>, exceeds: (Token, Token) -> bool)

  /** A token the matcher looks at: it has a vector, is no stop word and no
      punctuation. */
  predicate IsContent(tok: Token) {
    tok.hasVector && !tok.isStop && !tok.isPunct
  }

  /** `anchor` fires for `tok`: it has a vector and the similarity is above
      the threshold. */
  predicate Fires(nlp: Nlp, tok: Token, anchor: Token) {
    anchor.hasVector && nlp.exceeds(tok, anchor)
  }

  /** A content token for which some anchor fires. */
  predicate Qualifies(nlp: Nlp, tok: Token, anchors: seq<Token>) {
    IsContent(tok) && exists k :: 0 <= k < |anchors| && Fires(nlp, tok, anchors[k])
  }

  /** The texts of the qualifying tokens of `doc`, collected front to back. */
  function SimilarWords(nlp: Nlp, doc: seq<Token>, anchors: seq<Token>): set<string>
  {
    if |doc| == 0 then {}
    else
      var last := doc[|doc| - 1];
      SimilarWords(nlp, doc[..|doc| - 1], anchors)
        + (if Qualifies(nlp, last, anchors) then {last.text} else {})
  }

  /** Soundness and completeness: a word is collected exactly when it is the
      text of a qualifying token. */
  lemma {:induction false} SimilarWordsMembership(nlp: Nlp, doc: seq<Token>, anchors: seq<Token>,
                                                  w: string)
    ensures w in SimilarWords(nlp, doc, anchors)
            <==> exists i :: 0 <= i < |doc| && doc[i].text == w && Qualifies(nlp, doc[i], anchors)
  {
    if |doc| > 0 {
      var front := doc[..|doc| - 1];
      SimilarWordsMembership(nlp, front, anchors, w);
      if exists i :: 0 <= i < |front| && front[i].text == w && Qualifies(nlp, front[i], anchors) {
        var i :| 0 <= i < |front| && front[i].text == w && Qualifies(nlp, front[i], anchors);
        assert doc[i] == front[i];
      }
      if exists i :: 0 <= i < |doc| && doc[i].text == w && Qualifies(nlp, doc[i], anchors) {
        var i :| 0 <= i < |doc| && doc[i].text == w && Qualifies(nlp, doc[i], anchors);
        if i < |front| {
          assert front[i] == doc[i];
        }
      }
    }
  }

  /** One more token: the collected set grows by its text exactly when it
      qualifies. */
  lemma SimilarWordsSnoc(nlp: Nlp, doc: seq<Token>, anchors: seq<Token>, i: nat)
    requires i < |doc|
    ensures SimilarWords(nlp, doc[..i + 1], anchors)
            == SimilarWords(nlp, doc[..i], anchors)
               + (if Qualifies(nlp, doc[i], anchors) then {doc[i].text} else {})
  {
    assert doc[..i + 1][..i] == doc[..i];
  }

  /** `[nlp(w)[0] for w in words]`: the first token of each parse, or an
      `IndexError` when some parse is empty. */
  function FirstTokens(nlp: Nlp, words: seq<string>): Result<seq<Token>>
  {
    if |words| == 0 then Ok([])
    else if |nlp.parse(words[0])| == 0 then Err(IndexError)
    else
      match FirstTokens(nlp, words[1..])
      case Err(f) => Err(f)
      case Ok(rest) => Ok([nlp.parse(words[0])[0]] + rest)
  }

  /** The anchors are the first tokens, in order, and they exist exactly when
      no parse is empty. */
  lemma {:induction false} FirstTokensMeaning(nlp: Nlp, words: seq<string>)
    ensures FirstTokens(nlp, words).Ok? <==> forall i :: 0 <= i < |words| ==> |nlp.parse(words[i])| > 0
    ensures FirstTokens(nlp, words).Err? ==> FirstTokens(nlp, words).fault == IndexError
    ensures FirstTokens(nlp, words).Ok? ==>
              var anchors := FirstTokens(nlp, words).value;
              && |anchors| == |words|
              && forall i :: 0 <= i < |words| ==> anchors[i] == nlp.parse(words[i])[0]
  {
    if |words| > 0 {
      var rest := words[1..];
      FirstTokensMeaning(nlp, rest);
      forall i | 0 < i < |words| ensures words[i] == rest[i - 1] {
      }
    }
  }

  /** `topic_related_words.get(topic, [])`. */
  function RelatedOf(related: map<string, seq<string>>, topic: string): seq<string>
  {
    if topic in related then related[topic] else []
  }

  /** The anchors of a topic: the topic name first, then its related words. */
  function TopicAnchors(nlp: Nlp, related: map<string, seq<string>>, topic: string): Result<seq<Token>>
  {
    FirstTokens(nlp, [topic] + RelatedOf(related, topic))
  }

  /** `find_similar_words(text, topic)`, as a set: the lower-cased text is
      parsed and its qualifying tokens are collected. */
  function SimilarWordsFor(nlp: Nlp, related: map<string, seq<string>>, text: string,
                           topic: string): Result<set<string>>
  {
    match TopicAnchors(nlp, related, topic)
    case Err(f) => Err(f)
    case Ok(anchors) => Ok(SimilarWords(nlp, nlp.parse(Lower(text)), anchors))
  }

  /** `find_sensitive_content(sentence, topic)`: the flag and the words. */
  function SensitiveContentFor(nlp: Nlp, related: map<string, seq<string>>, text: string,
                               topic: string): Result<(bool, set<string>)>
  {
    match SimilarWordsFor(nlp, related, text, topic)
    case Err(f) => Err(f)
    case Ok(words) => Ok((|words| > 0, words))
  }

  /** A topic lookup fails, with an `IndexError`, exactly when the parse of
      the topic name or of one of its related words is empty. */
  lemma SensitiveContentFails(nlp: Nlp, related: map<string, seq<string>>, text: string,
                              topic: string)
    ensures var words := [topic] + RelatedOf(related, topic);
            var r := SensitiveContentFor(nlp, related, text, topic);
            && (r.Err? <==> exists i :: 0 <= i < |words| && |nlp.parse(words[i])| == 0)
            && (r.Err? ==> r.fault == IndexError)
  {
    FirstTokensMeaning(nlp, [topic] + RelatedOf(related, topic));
  }

  /** Otherwise the content is flagged exactly when some word was found. */
  lemma SensitiveContentFlag(nlp: Nlp, related: map<string, seq<string>>, text: string,
                             topic: string)
    ensures var r := SensitiveContentFor(nlp, related, text, topic);
            r.Ok? ==> (r.value.0 <==> r.value.1 != {})
  {
    var r := SensitiveContentFor(nlp, related, text, topic);
    if r.Ok? && r.value.1 != {} {
      var w :| w in r.value.1;
      assert |r.value.1| >= |{w}|;
    }
  }

  /** The anchor `nlp(word)[0]` exists and fires for `tok`. */
  predicate FiresFor(nlp: Nlp, tok: Token, word: string) {
    |nlp.parse(word)| > 0 && Fires(nlp, tok, nlp.parse(word)[0])
  }

  /** Some anchor of `words` fires exactly when the anchor of some word fires. */
  lemma AnchorsFire(nlp: Nlp, words: seq<string>, tok: Token)
    requires FirstTokens(nlp, words).Ok?
    ensures (exists k :: 0 <= k < |FirstTokens(nlp, words).value| &&
                         Fires(nlp, tok, FirstTokens(nlp, words).value[k]))
            <==> exists k :: 0 <= k < |words| && FiresFor(nlp, tok, words[k])
  {
    var anchors := FirstTokens(nlp, words).value;
    FirstTokensMeaning(nlp, words);
    if exists k :: 0 <= k < |anchors| && Fires(nlp, tok, anchors[k]) {
      var k :| 0 <= k < |anchors| && Fires(nlp, tok, anchors[k]);
      assert FiresFor(nlp, tok, words[k]);
    }
    if exists k :: 0 <= k < |words| && FiresFor(nlp, tok, words[k]) {
      var k :| 0 <= k < |words| && FiresFor(nlp, tok, words[k]);
      assert Fires(nlp, tok, anchors[k]);
    }
  }

  /** A word is found exactly when it is the text of a content token of the
      lower-cased sentence for which the topic name or one of its related
      words fires. */
  lemma SensitiveContentWords(nlp: Nlp, related: map<string, seq<string>>, text: string,
                              topic: string, w: string)
    ensures var words := [topic] + RelatedOf(related, topic);
            var r := SensitiveContentFor(nlp, related, text, topic);
            var doc := nlp.parse(Lower(text));
            r.Ok? ==>
              (w in r.value.1 <==>
                 exists i :: 0 <= i < |doc| && doc[i].text == w && IsContent(doc[i]) &&
                             exists k :: 0 <= k < |words| && FiresFor(nlp, doc[i], words[k]))
  {
    var words := [topic] + RelatedOf(related, topic);
    var r := TopicAnchors(nlp, related, topic);
    if r.Ok? {
      var doc := nlp.parse(Lower(text));
      SimilarWordsMembership(nlp, doc, r.value, w);
      forall i | 0 <= i < |doc|
        ensures Qualifies(nlp, doc[i], r.value) <==>
                  IsContent(doc[i]) && exists k :: 0 <= k < |words| && FiresFor(nlp, doc[i], words[k])
      {
        AnchorsFire(nlp, words, doc[i]);
      }
    }
  }

  /** The token texts come from the lower-cased sentence, so when the
      tokenizer yields pieces of its input every word found is free of
      capital letters A-Z. */
  lemma WordsAreLowerCase(nlp: Nlp, related: map<string, seq<string>>, text: string, topic: string)
    requires forall tok :: tok in nlp.parse(Lower(text)) ==>
               exists i :: OccursAt(Lower(text), tok.text, i)
    ensures SimilarWordsFor(nlp, related, text, topic).Ok? ==>
              forall w, j :: w in SimilarWordsFor(nlp, related, text, topic).value && 0 <= j < |w| ==>
                !('A' <= w[j] <= 'Z')
  {
    var r := SimilarWordsFor(nlp, related, text, topic);
    if r.Ok? {
      var anchors := TopicAnchors(nlp, related, topic).value;
      var doc := nlp.parse(Lower(text));
      var low := Lower(text);
      LowerIsPointwise(text);
      forall w, j | w in r.value && 0 <= j < |w| ensures !('A' <= w[j] <= 'Z') {
        SimilarWordsMembership(nlp, doc, anchors, w);
        var k :| 0 <= k < |doc| && doc[k].text == w && Qualifies(nlp, doc[k], anchors);
        assert doc[k] in doc;
        var i :| OccursAt(low, w, i);
        assert w[j] == low[i..i + |w|][j] == low[i + j];
      }
    }
  }
}
