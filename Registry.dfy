/**
  The session's topic registry in raio.py: the insertion-ordered `topics`
  dictionary (name to "enabled" check box), `topic_related_words` and
  `topic_colors`, with the ten built-in topics and `add_custom_topic`.
 */
module Registry {

  /** `names` is the key order of `topics`; `enabled` holds the value of each
      check box; `related` is `topic_related_words`; `colors` is
      `topic_colors`. */
  datatype Registry = Registry(names: seq<string>, enabled: map<string, bool>,
                               related: map<string, seq<string>>, colors: map<string, string>)

  /** The registry as the session keeps it: every topic is listed once, has a
      check box and related words, and has a non-empty name. */
  ghost predicate Valid(reg: Registry) {
    && (forall i, j :: 0 <= i < j < |reg.names| ==> reg.names[i] != reg.names[j])
    && (forall n :: n in reg.enabled <==> n in reg.names)
    && (forall n :: n in reg.names ==> n in reg.related && n != "")
  }

  /** The check box of `topic` exists and is ticked. */
  predicate IsEnabled(reg: Registry, topic: string) {
    topic in reg.enabled && reg.enabled[topic]
  }

  const DefaultNames: seq<string> := [
    "Drogas", "Morte", "Crimes Sexuais", "Família", "Palavras Ofensivas",
    "Violência", "Dinheiro", "Armas", "Tráfico Humano", "Discriminação"
  ]

  /** The related words of each built-in topic, in the order of `DefaultNames`. */
  const DefaultRelatedWords: seq<seq<string>> := [
    ["cocaína", "maconha", "crack", "heroína", "tráfico",
     "vício", "substância", "entorpecente", "dependente", "overdose"],
    ["falecimento", "assassinato", "homicídio", "suicídio", "funeral",
     "velório", "cemitério", "luto", "óbito", "cadáver"],
    ["estupro", "abuso", "assédio", "pedofilia", "violência",
     "exploração", "atentado", "violação", "molestamento", "agressão"],
    ["pai", "mãe", "filho", "irmão", "parente",
     "casamento", "divórcio", "adoção", "guarda", "pensão"],
    ["merda", "porra", "caralho", "puta", "viado",
     "buceta", "idiota", "imbecil", "babaca", "cuzão"],
    ["agressão", "briga", "pancada", "espancamento", "soco",
     "chute", "arma", "facada", "tiro", "ameaça"],
    ["roubo", "fraude", "propina", "suborno", "extorsão",
     "lavagem", "desvio", "corrupção", "sonegação", "golpe"],
    ["revólver", "pistola", "fuzil", "metralhadora", "munição",
     "explosivo", "granada", "bomba", "armamento", "calibre"],
    ["escravidão", "exploração", "sequestro", "cárcere", "prostituição",
     "aliciamento", "contrabando", "coação", "trabalho forçado", "servidão"],
    ["racismo", "homofobia", "preconceito", "xenofobia", "intolerância",
     "machismo", "segregação", "bullying", "injúria", "difamação"]
  ]

  /** The colour of each built-in topic, in the order of `DefaultNames`. */
  const DefaultColorCodes: seq<string> := [
    "#FF1493", "#4169E1", "#228B22", "#8B008B", "#DAA520",
    "#CD5C5C", "#4682B4", "#FF4500", "#483D8B", "#B22222"
  ]

  /** The dictionary whose keys are `ks` and whose value for `ks[i]` is
      `vs[i]` (a later repeat of a key wins, as in a Python dictionary
      display). */
  function Zip<V>(ks: seq<string>, vs: seq<V>): map<string, V>
    requires |ks| == |vs|
  {
    if ks == [] then map[]
    else Zip(ks[..|ks| - 1], vs[..|vs| - 1])[ks[|ks| - 1] := vs[|vs| - 1]]
  }

  lemma {:induction false} ZipKeys<V>(ks: seq<string>, vs: seq<V>, k: string)
    requires |ks| == |vs|
    ensures k in Zip(ks, vs) <==> k in ks
  {
    if ks != [] {
      var n := |ks| - 1;
      ZipKeys(ks[..n], vs[..n], k);
      assert ks == ks[..n] + [ks[n]];
    }
  }

  /** The registry as `__init__` builds it: the ten built-in topics, all
      ticked. */
  function DefaultRegistry(): Registry
  {
    Registry(DefaultNames,
             map n | n in DefaultNames :: true,
             Zip(DefaultNames, DefaultRelatedWords),
             Zip(DefaultNames, DefaultColorCodes))
  }

  /** The built-in topic names are pairwise distinct (they differ in length
      or in their first letter). */
  lemma DefaultNamesDistinct()
    ensures forall i, j :: 0 <= i < j < |DefaultNames| ==> DefaultNames[i] != DefaultNames[j]
  {
    var ns := DefaultNames;
    forall i, j | 0 <= i < j < |ns| ensures ns[i] != ns[j] {
      assert |ns[i]| != |ns[j]| || ns[i][0] != ns[j][0];
    }
  }

  lemma DefaultNamesNonEmpty()
    ensures forall n :: n in DefaultNames ==> n != ""
  {
  }

  /** The built-in registry is valid, every topic is ticked and has a
      colour, and only built-in topics have one. */
  lemma DefaultRegistryMeaning()
    ensures var reg := DefaultRegistry();
            && Valid(reg)
            && |reg.names| == 10
            && (forall n :: n in reg.names ==> IsEnabled(reg, n))
            && (forall n :: n in reg.colors <==> n in reg.names)
  {
    DefaultNamesDistinct();
    DefaultNamesNonEmpty();
    forall n ensures n in Zip(DefaultNames, DefaultRelatedWords) <==> n in DefaultNames {
      ZipKeys(DefaultNames, DefaultRelatedWords, n);
    }
    forall n ensures n in Zip(DefaultNames, DefaultColorCodes) <==> n in DefaultNames {
      ZipKeys(DefaultNames, DefaultColorCodes, n);
    }
  }

  /** `add_custom_topic`: a non-empty name not yet among the topics is added,
      ticked, with itself as its only related word; no colour is added. */
  function AddTopic(reg: Registry, name: string): Registry
  {
    if name != "" && name !in reg.enabled then
      Registry(reg.names + [name], reg.enabled[name := true], reg.related[name := [name]], reg.colors)
    else
      reg
  }

  /** Adding a topic keeps the registry valid; a new topic comes last, ticked,
      with `[name]` as related words and with no colour unless it already
      had one; existing topics keep their box and words; an empty or known
      name changes nothing. */
  lemma AddTopicMeaning(reg: Registry, name: string)
    requires Valid(reg)
    ensures var r := AddTopic(reg, name);
            && Valid(r)
            && r.colors == reg.colors
            && (forall n :: n in reg.enabled ==> n in r.enabled && r.enabled[n] == reg.enabled[n])
            && (forall n :: n in reg.names ==> r.related[n] == reg.related[n])
            && (name == "" || name in reg.names ==> r == reg)
            && (name != "" && name !in reg.names ==>
                  && |r.names| == |reg.names| + 1
                  && r.names[..|reg.names|] == reg.names && r.names[|reg.names|] == name
                  && IsEnabled(r, name) && r.related[name] == [name])
  {
    var r := AddTopic(reg, name);
    if name != "" && name !in reg.names {
      assert name !in reg.enabled;
      assert r.names[..|reg.names|] == reg.names;
      forall i, j | 0 <= i < j < |r.names| ensures r.names[i] != r.names[j] {
        if j < |reg.names| {
          assert r.names[i] == reg.names[i] && r.names[j] == reg.names[j];
        } else {
          assert r.names[i] == reg.names[i];
        }
      }
    }
  }

  /** Ticking or unticking the check box of an existing topic. */
  function SetEnabled(reg: Registry, name: string, on: bool): Registry
  {
    if name in reg.enabled then reg.(enabled := reg.enabled[name := on]) else reg
  }

  lemma SetEnabledMeaning(reg: Registry, name: string, on: bool)
    requires Valid(reg)
    ensures var r := SetEnabled(reg, name, on);
            && Valid(r)
            && r.names == reg.names && r.related == reg.related && r.colors == reg.colors
            && (name in reg.names ==> (IsEnabled(r, name) <==> on))
            && (forall n :: n != name ==> (IsEnabled(r, n) <==> IsEnabled(reg, n)))
  {
  }

  /** A topic added to a registry whose colours are those of its own topics
      never has a colour. */
  lemma CustomTopicHasNoColor(reg: Registry, name: string)
    requires Valid(reg) && (forall n :: n in reg.colors ==> n in reg.names)
    requires name != "" && name !in reg.names
    ensures name in AddTopic(reg, name).names && name !in AddTopic(reg, name).colors
  {
  }
}
