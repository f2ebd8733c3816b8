# RAIO sensitive-topic analysis, modelled in Dafny

RAIO transcribes a spoken-audio file and flags the sentences that are
semantically close to a set of sensitive topics ("Drogas", "Morte",
"Crimes Sexuais", ...). The operator can tick topics, add custom ones, play
the audio back and export a PDF report carrying the file's SHA-256 hash. The
repository holds three front ends:

- `raio.py`, the full desktop application. It has a registry of ten topics,
  each with its related words and colour. Topics are matched by word-vector
  similarity through spaCy. It also has a search sweep, a PDF report,
  single-flight playback and segment playback.
- `audio_analyzer.py`, an earlier desktop version. It has three topics and
  highlights each ticked topic in the transcription with `**` markers, by
  case-insensitive substring search.
- `app.py`, a Flask version. For every selected topic, it lists the
  eleven-token window around each keyword token of the lower-cased
  transcription.

The model follows the three front ends file by file:

| file | what it holds |
|---|---|
| `Wrappers.dfy` | `Option`, `Result` and the Python exceptions the core can raise (`IndexError`, `KeyError`, `IOError`). |
| `Text.dfy` | `str.lower` (per character), `str.find`, `str.strip`, `str.join` and `os.path.basename`, with their meaning proved. |
| `TopicMatching.dfy` | `find_similar_words` and `find_sensitive_content` as functions over an abstract language model `Nlp`. `Nlp` is a parser plus the "similarity > 0.5" test. |
| `Registry.dfy` | The topic registry of `raio.py` (the `topics`, `topic_related_words` and `topic_colors` dictionaries), its defaults and `add_custom_topic`. |
| `Sweeps.dfy` | `search_sensitive_topics` and the body of `generate_pdf_report` as functions, and the lemmas relating the two sweeps. |
| `FileHash.dfy` | `calculate_file_hash`: the 4096-byte reading loop over a binary reader object and a SHA-256 object, and hex encoding. |
| `Playback.dfy` | The playback flags of both desktop versions as a small state machine. |
| `Raio.dfy` | The `raio.py` session object as a class. Its methods are the loops of the source, each proved against the functions above. |
| `Highlight.dfy` | The highlighting loop of `audio_analyzer.py`, as written, and a corrected version (see Findings). |
| `AudioAnalyzer.dfy` | The `audio_analyzer.py` session object as a class. |
| `WebApp.dfy` | `SENSITIVE_TOPICS` and `analyze_audio` of `app.py`. |

Modelling choices:

- spaCy is an injected `Nlp` value. `nlp.parse` is the tokenizer, with each
  token's `has_vector`, `is_stop` and `is_punct` flags. `nlp.exceeds(a, b)`
  says whether `a.similarity(b) > 0.5`.
- NLTK's `word_tokenize` and SHA-256 are injected functions.
- Whisper's output is a parameter, either a list of segments or the
  exception it raised.
- The file dialogs, the clock and the bytes of the selected file are
  parameters too.
- `find_similar_words` returns `list(set(...))`, whose order is Python's
  hash order. The model returns the set.
- Where a Python exception escapes a sweep, the model returns `Err(fault)`
  for the report's findings loop and `Crashed(frames, fault)` for the
  search. The desktop code shows the report's exception in an error box,
  while `search_sensitive_topics` lets its exception reach Tk's callback
  handler. In either case the remaining work is abandoned. What the search
  had already done stays on screen: the results area it cleared stays empty, and the
  transcript area holds the frames of the sentences before the one that
  raised. `Crashed` records those frames.

Behaviours of the code that the model keeps as they are:

- The code keeps no cache of matches. The report calls
  `find_sensitive_content` again for every sentence and ticked topic, and so
  may fail where the search did not.
- `add_custom_topic` only registers the topic: it analyses nothing and
  undoes nothing. A custom topic gets a related-words entry but no colour.
- Neither sweep can be cancelled or reports progress.
- An empty parse of a topic word raises `IndexError`, which ends the whole
  sweep rather than skipping that word.
- Matched words take the casing of the lower-cased text, because the text
  is lower-cased before parsing.

## Model

| member | source | states |
|---|---|---|
| Text.Lower | raio.py:460 | The model's lower-casing, a per-character map over ASCII and Latin-1 capitals, keeps the length of the text; LowerChar leaves no upper-case ASCII letter. |
| Text.LowerConcat | audio_analyzer.py:211-212 | Lower-casing distributes over concatenation. |
| Text.LowerIdempotent | audio_analyzer.py:211-212 | Lower-casing twice is lower-casing once. |
| Text.Find | audio_analyzer.py:217 | `str.find` returns -1 or a position at or after `start` where the rest of the string can hold the pattern. |
| Text.FindFound | audio_analyzer.py:217 | A position returned by `str.find` is an occurrence of the pattern. |
| Text.FindLeast | audio_analyzer.py:217 | `str.find` returns the leftmost occurrence at or after `start`, and -1 only when there is none. |
| Text.FindShift | audio_analyzer.py:217 | Searching a suffix gives the position in the whole string, shifted by the prefix length. |
| Text.StripMeaning | raio.py:504 | `str.strip` removes exactly the leading and trailing white space. The result is a slice of the input, and it neither starts nor ends with white space. |
| Text.JoinOffset | app.py:79 | Every piece of `sep.join(pieces)` occurs, unchanged, at the returned offset. |
| Text.Basename | raio.py:630 | `os.path.basename` is the suffix after the last '/' and contains no '/'. |
| TopicMatching.SimilarWordsMembership | raio.py:467-480 | A word is in the result exactly when some content token of the parsed text has that text and is similar (> 0.5) to some anchor that has a vector. |
| TopicMatching.SimilarWordsSnoc | raio.py:467-478 | Handling one more token adds its text exactly when it qualifies. |
| TopicMatching.FirstTokensMeaning | raio.py:463-465 | The anchors are the first tokens of the topic and of each related word. They exist exactly when no parse is empty; otherwise `IndexError` is raised. |
| TopicMatching.SensitiveContentFails | raio.py:454-488 | `find_sensitive_content` fails, with `IndexError`, exactly when the topic or one of its related words parses to no token. |
| TopicMatching.SensitiveContentFlag | raio.py:482-488 | The flag is true exactly when the word list is non-empty. |
| TopicMatching.AnchorsFire | raio.py:465-476 | Some anchor fires for a token exactly when some topic word's first token does. |
| TopicMatching.SensitiveContentWords | raio.py:454-488 | The words returned are exactly the texts of the content tokens of the lower-cased sentence that are similar to the first token of the topic or of one of its related words. |
| TopicMatching.WordsAreLowerCase | raio.py:460 | When tokens are slices of the parsed text, no returned word contains an upper-case ASCII letter. |
| Registry.ZipKeys | raio.py:37-92 | The dictionary built from a key list and a value list has exactly the listed keys. |
| Registry.DefaultNamesDistinct | raio.py:108-119 | The ten built-in topic names are distinct. |
| Registry.DefaultRegistryMeaning | raio.py:37-119 | The initial registry is valid and has ten ticked topics, each with related words and a colour. |
| Registry.AddTopicMeaning | raio.py:334-338 | A non-empty new name is added last, ticked, with itself as its only related word, and everything else is kept. An empty or known name changes nothing. Validity is preserved and the colours are untouched. |
| Registry.SetEnabledMeaning | raio.py:536-537 | Ticking or unticking a known topic changes only that topic's box. |
| Registry.CustomTopicHasNoColor | raio.py:334-338 | A custom topic is registered without a colour. |
| Sweeps.SessionFinderMeaning | raio.py:482-488 | The session's lookup fails only with `IndexError`, and its flag is true exactly when it found words. |
| Sweeps.ExamineMeaning | raio.py:536-554 | For one ticked topic: an entry exactly when the lookup flags the sentence. The entry has the topic, the sentence, the detected words and the topic's colour. A `KeyError` is raised when the related words or the colour are missing, and a lookup exception passes through. |
| Sweeps.SearchTopicsSnoc | raio.py:536-554 | One more topic appends its entry, or nothing, or ends in its exception. |
| Sweeps.Founds | raio.py:540 | `topics_found` holds, in order, each match's topic and words. |
| Sweeps.SearchTopicsOk | raio.py:536-554 | The per-sentence loop succeeds exactly when every topic's examination does. Otherwise it fails with the first failing topic's exception. |
| Sweeps.SearchTopicsMeaning | raio.py:536-554 | The entries of one sentence are, in topic order, exactly those of the topics that hit. |
| Sweeps.SearchTopicsErrPrefix | raio.py:536-554 | An exception at some topic is the loop's outcome. |
| Sweeps.SearchSentencesErrPrefix | raio.py:533-557 | An exception at some sentence is the sweep's outcome. |
| Sweeps.SearchSentencesOk | raio.py:533-557 | The sweep succeeds exactly when every sentence's topic loop does. |
| Sweeps.SearchSentencesFrames | raio.py:533-557 | There is one frame per sentence, in order, holding its own topics found. |
| Sweeps.SearchSentencesMeaning | raio.py:532-557 | `matches` lists exactly the (sentence, topic) pairs that hit, in sentence order and then topic order, each with its own entry. |
| Sweeps.SearchCrashesAt | raio.py:532-557 | The first exception, after clean earlier work, is the sweep's outcome. The search then shows exactly the frames of the sentences before the failing one. |
| Sweeps.FramesDrawnOk | raio.py:532-557 | After a clean sweep, the frames on screen are the sweep's frames. |
| Sweeps.FramesDrawnAt | raio.py:524-557 | When sentence `i` raises first, the frames on screen are those of sentences 0 to i-1, and the sweep fails with sentence i's exception. |
| Sweeps.FramesDrawnErrPrefix | raio.py:532-557 | After a prefix has failed, later sentences draw no frame. |
| Sweeps.SearchNotice | raio.py:560-582 | The "nothing detected" notice appears exactly when no ticked topic hits any sentence. |
| Sweeps.TranscriptLines | raio.py:644-647 | The transcript has one line per sentence, in order. |
| Sweeps.Header | raio.py:621-641 | The header is six entries: title, date, file name, hash label, hash and transcript heading. |
| Sweeps.FindingsOf | raio.py:658-669 | A report finding per search match, in the same order. |
| Sweeps.FindingsOfAppend | raio.py:658-669 | Findings of concatenated matches are the concatenated findings. |
| Sweeps.ReportCrashesAt | raio.py:658-681 | The first lookup exception in the findings loop ends the report. |
| Sweeps.ReportTopicsErrPrefix | raio.py:659-669 | An exception at some topic is the findings loop's outcome for the sentence. |
| Sweeps.ReportSentencesErrPrefix | raio.py:658-669 | An exception at some sentence is the findings loop's outcome. |
| Sweeps.ReportTopicsMeaning | raio.py:659-669 | The per-sentence findings succeed exactly when every ticked topic's lookup does. They fail with one of their exceptions, and when the search succeeds they equal the findings of its matches. |
| Sweeps.ReportSentencesMeaning | raio.py:658-669 | The same for the whole findings section, against the search's `matches`. |
| Sweeps.ReportAgreesWithSearch | raio.py:593-681 | When the search succeeds, the report is saved as the header, the transcript and the findings of exactly the search's matches, unless the PDF library fails, which ends in the error box. |
| Sweeps.ReportLayout | raio.py:621-652 | A saved report starts with the six header entries, then the transcript lines in order, then the findings heading. |
| Sweeps.ReportClosing | raio.py:655-672 | A saved report ends with "nothing detected" exactly when no ticked topic hits any sentence. |
| Sweeps.EntriesClosing | raio.py:671-672 | The entries end with "nothing detected" exactly when there are no findings. |
| Sweeps.EntriesHeader | raio.py:621-641 | The entries start with the header. |
| Sweeps.TranscriptPart | raio.py:643-669 | The body holds the transcript lines, the findings heading and then the findings, in order. |
| Sweeps.BodyClosing | raio.py:671-672 | The body ends with "nothing detected" exactly when there are no findings. |
| Sweeps.ClosingMeaning | raio.py:671-672 | The closing line is present exactly when there are no findings. |
| Sweeps.ReportFindingsHits | raio.py:655-669 | The findings section is empty exactly when no ticked topic hits any sentence. |
| Sweeps.ReportTopicsHits | raio.py:659-669 | A sentence has no finding exactly when no topic hits it. |
| Sweeps.FindingsAreFindings | raio.py:658-669 | The findings loop writes only finding entries. |
| Sweeps.TopicFindingsAreFindings | raio.py:659-669 | The per-sentence loop writes only finding entries. |
| Sweeps.CustomTopicHitCrashesSearch | raio.py:553 | A hit on a topic without a colour (every custom topic) makes the search fail. |
| Sweeps.WithFallbackColor | raio.py:553 | The corrected registry gives every topic a colour and keeps the others. |
| Sweeps.ReportIgnoresColors | raio.py:658-669 | The report's findings do not depend on the colours. |
| Sweeps.TopicsIgnoreColors | raio.py:659-669 | The per-sentence findings do not depend on the colours. |
| Sweeps.FallbackSearchAgreesWithReport | raio.py:532-557 | With a fallback colour, the search succeeds exactly when the report's findings do, and the findings are those of its matches. |
| FileHash.BinaryReader.Read | raio.py:588 | `f.read(n)` returns the next at most n bytes and advances past them. |
| FileHash.Sha256.Update | raio.py:589 | `update` appends the block to the bytes absorbed. |
| FileHash.Sha256.HexDigest | raio.py:590 | `hexdigest` is the hex encoding of the digest of everything absorbed. |
| FileHash.HexDigit | raio.py:590 | A nibble becomes a hex digit. |
| FileHash.DigitValue | raio.py:590 | A hex digit has a value below 16. |
| FileHash.DigitRoundTrip | raio.py:590 | Decoding an encoded nibble gives it back. |
| FileHash.HexShape | raio.py:590 | The hex string has two hex digits per byte. |
| FileHash.HexRoundTrip | raio.py:590 | The hex encoding can be decoded back to the digest. |
| FileHash.ChunksMeaning | raio.py:587-589 | The blocks read are non-empty, all but the last are exactly 4096 bytes long, and together they are the file. |
| FileHash.ChunksFrom | raio.py:588 | Reading from a position yields the next block and then the blocks after it. |
| FileHash.CalculateFileHash | raio.py:584-591 | The loop absorbs the file block by block and returns the hex SHA-256 of the whole content. |
| Playback.StartMeaning | raio.py:299-310 | Starting changes the state only with audio and when idle. It then plays with no stop requested, and it is idempotent. |
| Playback.StopMeaning | raio.py:312-317 | Stopping leaves nothing playing and requests a stop only when something played. It is idempotent. |
| Playback.StopAndFinishCommute | raio.py:312-332 | An explicit stop and the playing thread's `finally` agree, in either order. |
| Playback.ToggleMeaning | raio.py:290-297 | With audio, toggling flips playing. Without audio, nothing starts. |
| Playback.PlaySegmentStops | raio.py:373-376 | Playing a segment first stops any playback. |
| Playback.TogglePlayMeaning | audio_analyzer.py:157-167 | With audio, `toggle_play` flips `is_playing`. Without audio it changes nothing. Toggling twice restores the flag. |
| Raio.StoredSentencesMeaning | raio.py:504-505 | Each stored sentence is its segment's text with the surrounding white space removed, with the segment's times. |
| Raio.WriteTranscript | raio.py:644-647 | The loop writes the transcript lines of the sentences. |
| Raio.TopicTokens | raio.py:465 | The loop collects the first tokens of the topic words, or raises `IndexError` at the first empty parse. |
| Raio.CollectSimilar | raio.py:467-478 | The nested loop with `break` computes exactly the set of similar words. |
| Raio.RaioApp.constructor | raio.py:22-119 | The session starts with the default registry, no file, no sentences, no audio and nothing playing. |
| Raio.RaioApp.AddCustomTopic | raio.py:334-338 | The registry becomes `AddTopic` of the old one. Nothing else changes, and consistency is kept. |
| Raio.RaioApp.SetTopicEnabled | raio.py:536-537 | The registry becomes `SetEnabled` of the old one. Nothing else changes. |
| Raio.RaioApp.SelectFile | raio.py:251-288 | The dialog's answer is stored. For a chosen file that `librosa.load` reads, the audio becomes whether the playback load succeeds with a non-empty segment. That load is `AudioSegment.from_file`, the WAV export and the pygame load. When `librosa.load` raises, or no file was chosen, the previous audio stays. |
| Raio.RaioApp.ProcessAudio | raio.py:490-516 | With a file and a transcription, the stripped sentences are stored. Otherwise nothing changes. |
| Raio.RaioApp.FindSimilarWords | raio.py:454-480 | The method computes `SimilarWordsFor` of the session's model and related words. |
| Raio.RaioApp.FindSensitiveContent | raio.py:482-488 | The method computes `SensitiveContentFor`. |
| Raio.RaioApp.ExamineTopic | raio.py:536-554 | The inner loop body computes `Examine`. |
| Raio.RaioApp.SearchSentence | raio.py:534-554 | The per-sentence loop computes the sentence's topics found and matches, or its first exception. |
| Raio.RaioApp.SearchSensitiveTopics | raio.py:518-582 | The search sweep computes `Search` of the session: the frames and the listing or notice, or, on an exception, the frames drawn before it. |
| Raio.RaioApp.ReportSentence | raio.py:659-669 | The per-sentence findings loop computes `ReportTopics`. |
| Raio.RaioApp.ReportFindings | raio.py:655-669 | The findings loop computes `ReportSentences`. `found_topics` is set exactly when it found something. |
| Raio.RaioApp.GenerateReport | raio.py:593-681 | The report is nothing without sentences, nothing when cancelled, an `IOError` for an unreadable file, a failure when the PDF library cannot render or save the document, and otherwise `Report`. |
| Raio.RaioApp.WriteReport | raio.py:609-681 | The saved entries are the header with the hex hash, the transcript, the findings and the closing line; otherwise the lookup's exception, or the PDF library's failure to render or save. |
| Raio.RaioApp.StartPlayback | raio.py:299-310 | The flags become `Start` of the old ones. |
| Raio.RaioApp.StopPlayback | raio.py:312-317 | The flags become `Stop` of the old ones. |
| Raio.RaioApp.PlayAudioFinally | raio.py:330-331 | The playing thread's end clears `is_playing`. |
| Raio.RaioApp.TogglePlayback | raio.py:290-297 | The flags become `Toggle` of the old ones. |
| Raio.RaioApp.PlaySegment | raio.py:373-376 | The flags become `PlaySegment` of the old ones. |
| Highlight.Wrap | audio_analyzer.py:222-226 | Wrapping a slice in markers adds four characters. |
| Highlight.WrapParts | audio_analyzer.py:222-226 | Wrapping keeps the text before, marks the slice and keeps the text after. |
| Highlight.StaleHitsAreOccurrences | audio_analyzer.py:215-229 | The positions the loop finds are occurrences in the stale lower-cased text, at least `len(topic) + 4` apart. |
| Highlight.StaleLength | audio_analyzer.py:215-229 | The loop adds four characters per position it finds. |
| Highlight.StalePrefix | audio_analyzer.py:215-229 | The loop never changes the text before its start position. |
| Highlight.StaleTurn | audio_analyzer.py:216-229 | One turn ends the loop when `find` returns -1, and otherwise wraps the found slice and continues four characters further. |
| Highlight.HighlightTopic | audio_analyzer.py:211-229 | The loop, as written, computes `StaleHighlight` over the text lower-cased once before the loop. |
| Highlight.StaleFirst | audio_analyzer.py:216-226 | The first position found is marked in the result. |
| Highlight.HighlightTopicMeaning | audio_analyzer.py:211-229 | As written: four characters per hit, the text unchanged when the topic does not occur, every hit an occurrence, and the first occurrence marked. |
| Highlight.GreedyHitsAreOccurrences | audio_analyzer.py:214-229 | The intended hits are non-overlapping occurrences, each found from the end of the previous one. |
| Highlight.GreedyLength | audio_analyzer.py:222-226 | The intended result grows by four characters per hit. |
| Highlight.GreedyCovers | audio_analyzer.py:214-229 | Every occurrence of the topic is marked or overlaps a marked one. |
| Highlight.FindAligned | audio_analyzer.py:212-217 | Searching the re-lowered current text at the shifted position finds the shifted occurrence. |
| Highlight.GreedyUnfold | audio_analyzer.py:216-226 | The intended result marks the next occurrence and continues after it. |
| Highlight.GreedyStep | audio_analyzer.py:216-229 | One corrected turn keeps the loop invariant. |
| Highlight.CorrectedTurn | audio_analyzer.py:212-229 | A corrected turn ends exactly when no occurrence remains, and otherwise keeps the loop invariant. |
| Highlight.CorrectedStep | audio_analyzer.py:216-229 | One corrected turn reports a hit exactly when the re-lowered text holds the topic at or after `start`. With no hit the text is the intended result. With a hit, the resume position moves strictly forward and the loop invariant holds for the wrapped text. |
| Highlight.HighlightTopicCorrected | audio_analyzer.py:211-229 | Re-lowering the text every turn marks every non-overlapping occurrence of the topic (`Greedy`). |
| Highlight.StaleHighlightMissesSecondOccurrence | audio_analyzer.py:212-229 | On "x x" with topic "x", the code yields "**x** x", while the intended result is "**x** **x**". |
| AudioAnalyzer.HighlightAllLength | audio_analyzer.py:207-229 | The displayed text grows by four characters per marker pair inserted. |
| AudioAnalyzer.TickedOnly | audio_analyzer.py:208-209 | Exactly the ticked topics of the dictionary are kept: every kept topic is ticked and in the dictionary, and every ticked topic is kept. |
| AudioAnalyzer.TickedOnlySnoc | audio_analyzer.py:208-209 | The filter keeps insertion order: one more topic is appended exactly when it is ticked. |
| AudioAnalyzer.UntickedTopicsIgnored | audio_analyzer.py:208-209 | Unticked topics do not affect the displayed text. |
| AudioAnalyzer.NothingTickedNothingChanged | audio_analyzer.py:207-229 | With no topic ticked, the transcription is displayed unchanged. |
| AudioAnalyzer.HighlightTopics | audio_analyzer.py:207-229 | The loop over the topics highlights each ticked topic, in insertion order, in the text the previous ones left. |
| AudioAnalyzer.AnalyzerApp.constructor | audio_analyzer.py:73-78 | The session starts with the three default topics ticked, no file and nothing playing. |
| AudioAnalyzer.AnalyzerApp.SelectFile | audio_analyzer.py:124-155 | The dialog's answer is stored. For a chosen file that `librosa.load` reads, the audio becomes whether `AudioSegment.from_file` yields a non-empty segment. When `librosa.load` raises, or no file was chosen, the previous audio stays. |
| AudioAnalyzer.AnalyzerApp.AddCustomTopic | audio_analyzer.py:184-187 | A non-empty new name is added last and ticked; otherwise nothing changes. Validity is kept. |
| AudioAnalyzer.AnalyzerApp.SetTopicEnabled | audio_analyzer.py:208-209 | Only the named topic's box changes. |
| AudioAnalyzer.AnalyzerApp.TogglePlay | audio_analyzer.py:157-172 | `is_playing` becomes `TogglePlay` of the old flags. A thread starts exactly when playback turns on. |
| AudioAnalyzer.AnalyzerApp.PlayAudioFinally | audio_analyzer.py:180-181 | The playing thread's end clears `is_playing`. |
| AudioAnalyzer.AnalyzerApp.ProcessAudio | audio_analyzer.py:195-233 | With a file and a transcription, the highlighted transcription is displayed. Otherwise nothing changes. |
| WebApp.SensitiveTopicsDistinct | app.py:47-52 | The four topic names are distinct. |
| WebApp.WindowMeaning | app.py:79 | The window holds 1 to 11 consecutive tokens, including the keyword. It reaches five tokens on each side unless the token list ends sooner. |
| WebApp.ContextHoldsKeyword | app.py:79 | The keyword occurs, unchanged, in its joined context. |
| WebApp.KeywordHitsMeaning | app.py:77-78 | The keyword positions are found exactly, each once, in increasing order. |
| WebApp.ContextsMeaning | app.py:77-80 | There is one context per keyword position, in order, and it is that position's own. |
| WebApp.ContextsCount | app.py:77-80 | The number of contexts is the number of keyword tokens. |
| WebApp.SelectedNamesMeaning | app.py:74-76 | The result keys are, in table order, exactly the table's topics that were selected. |
| WebApp.SelectedNamesMembers | app.py:74-76 | A name is a key exactly when the table has it and it was selected. Unknown selections are ignored. |
| WebApp.TopicContexts | app.py:76-80 | The inner loop computes the contexts of the topic's keywords. |
| WebApp.FindTopics | app.py:72-80 | `found_topics` has exactly the selected known topics, each mapped to its contexts. |
| WebApp.AnalyzeAudio | app.py:54-86 | The result holds the transcription, the waveform path and the contexts of the lower-cased tokens for every selected topic. |
| WebApp.MultiWordKeywordNeverMatches | app.py:50 | The keyword "violência sexual" cannot equal a token without a space, so a token matches a `crimes_sexuais` keyword exactly when it is "estupro", "abuso" or "assédio". |

## Left out

- Speech recognition is out of scope: Whisper's result is an input.
- The spaCy and NLTK internals are out of scope: tokenising, word vectors and similarity are injected.
- `similarity > 0.5` is kept abstract as `nlp.exceeds`. The model holds no floating-point vectors.
- The real SHA-256 function is not modelled. It is injected, and only the reading loop and hex encoding are modelled.
- The GUI is not modelled: widget creation, frames, colours on screen, the waveform plot (librosa and matplotlib), `create_sentence_frame` and the alphabetical re-creation of the check boxes in `add_custom_topic`.
- Audio decoding is reduced to two flags. `plotted` says whether `librosa.load` reads the file. `decodes` says whether the playback load succeeds with non-empty audio. In the audio analyser that load is `AudioSegment.from_file` alone. In the transcription desktop app it also covers the WAV export and the pygame load inside the same `try`.
- pygame and pydub playback, the polling loop of `play_audio`, threads and their interleavings are not modelled. Only the flags each method sets are.
- Raio.RaioApp.PlaySegment: the temporary WAV file, its export and its timed removal are not modelled, and segment times are `real`.
- Text.Lower: only ASCII and Latin-1 capitals are lowered, one character to one. Python's `str.lower` also lowers capitals of other scripts (such as 'Ā'), and it turns U+0130 'İ' into two characters. The model's length-preserving lower-casing therefore misses the misaligned slices the highlighting loop makes after such a character. This choice suits Portuguese transcripts.
- The report's PDF layout (fonts, pages, `%.2f` formatting) is not modelled. The report is the sequence of its logical entries. Whether the PDF library can encode the text in its core font and save the file is the input `written`, not a function of the text and the path.
- The time stamp is an input string.
- Flask routing (`index`), the upload folder, `download_nltk_resources` and template rendering are not modelled. `analyze_audio` is modelled from its inputs.
- `process_audio` in `audio_analyzer.py` builds `doc = self.nlp(transcription)` and never uses it, so it is not modelled.
- The loops of `find_similar_words` assume the parsed tokens come from the parser. That they are substrings of the text is a requirement of `TopicMatching.WordsAreLowerCase` only.

## Findings

| source | as written | input that shows it | evidently intended | confidence | as-written member | corrected member |
|---|---|---|---|---|---|---|
| audio_analyzer.py:212-229 | `text_lower` is computed once per topic, but `highlighted_text` grows by four characters per marker pair. Later `find` calls therefore search a stale copy at a shifted start. | text "x x", topic "x": the second search starts at 5 in the 3-character stale text, so the result is "**x** x". | Every non-overlapping occurrence marked: "**x** **x**". | not executed | Highlight.StaleHighlightMissesSecondOccurrence | Highlight.HighlightTopicCorrected |
| raio.py:334-338, raio.py:553 | `add_custom_topic` gives a new topic related words but no entry in `topic_colors`. The first hit on it in `search_sensitive_topics` raises `KeyError`. | A registry with a custom topic that the model finds in some sentence. | The search lists the hit with some colour, matching the report. | not executed | Sweeps.CustomTopicHitCrashesSearch | Sweeps.FallbackSearchAgreesWithReport |
