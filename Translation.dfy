/** translate_text: long texts are packed sentence by sentence into chunks
    for the translator; and translate_ui, the label dictionary. */
module Translation {
  import opened Text
  import opened Wrappers
  import Seqs

  /** The largest text sent to the translator in one piece. */
  const MaxLength: nat := 4500

  /** The text of a group of sentences as the loop builds it: each sentence followed by a space. */
  function Render(group: seq<string>): string {
    if group == [] then "" else Render(group[..|group| - 1]) + group[|group| - 1] + " "
  }

  /** The sentences of the groups, in order. */
  function Flatten(groups: seq<seq<string>>): seq<string> {
    if groups == [] then [] else Flatten(groups[..|groups| - 1]) + groups[|groups| - 1]
  }

  /** The rendered groups, concatenated. */
  function ConcatRendered(groups: seq<seq<string>>): string {
    if groups == [] then "" else ConcatRendered(groups[..|groups| - 1]) + Render(groups[|groups| - 1])
  }

  /** The loop state after some sentences: the groups already sent and the group being built. */
  datatype Packing = Packing(done: seq<seq<string>>, current: seq<string>)

  /** The greedy packing: a sentence joins the current group while the group's
      text plus the sentence stays under MaxLength; otherwise the group is
      closed (when it holds anything) and the sentence starts the next one. */
  function Pack(sents: seq<string>): (r: Packing)
  {
    if sents == [] then Packing([], [])
    else
      var p := Pack(sents[..|sents| - 1]);
      var s := sents[|sents| - 1];
      if |Render(p.current)| + |s| < MaxLength then Packing(p.done, p.current + [s])
      else Packing(if p.current != [] then p.done + [p.current] else p.done, [s])
  }

  /** The groups the loop sends, the last one included. */
  function Groups(sents: seq<string>): (r: seq<seq<string>>)
    ensures r == [] <==> sents == []
    ensures |r| <= |sents|
  {
    var p := Pack(sents);
    PackShape(sents);
    if p.current != [] then p.done + [p.current] else p.done
  }

  /** The group being built ends with the latest sentence, and there are
      never more groups than sentences. */
  lemma {:induction false} PackShape(sents: seq<string>)
    ensures sents != [] ==> Pack(sents).current != [] && Pack(sents).current[|Pack(sents).current| - 1] == sents[|sents| - 1]
    ensures |Pack(sents).done| + |Pack(sents).current| <= |sents|
  {
    if sents != [] {
      PackShape(sents[..|sents| - 1]);
    }
  }

  /** Each chunk translated in order; None as soon as one translation raises. */
  function TranslateAll(chunks: seq<string>, lang: string, translate: (string, string) -> Option<string>)
    : (r: Option<seq<string>>)
    ensures r.Some? ==> |r.value| == |chunks|
  {
    if chunks == [] then Some([])
    else
      match TranslateAll(chunks[..|chunks| - 1], lang, translate)
      case None => None
      case Some(ts) =>
        match translate(chunks[|chunks| - 1], lang)
        case None => None
        case Some(t) => Some(ts + [t])
  }

  function RenderAll(groups: seq<seq<string>>): (r: seq<string>)
    ensures |r| == |groups| && forall k :: 0 <= k < |groups| ==> r[k] == Render(groups[k])
  {
    seq(|groups|, k requires 0 <= k < |groups| => Render(groups[k]))
  }

  /** translate_text(text, lang): `available` says whether the translator
      library was importable and `translate` is its answer (None when it raised). */
  function TranslationOf(text: string, lang: string, available: bool,
                         translate: (string, string) -> Option<string>,
                         sentTokenize: string -> seq<string>): (r: string)
    ensures r == text || (available && text != [] && lang != "en")
    ensures |text| <= MaxLength && r != text ==> Some(r) == translate(text, lang)
  {
    if !available || text == [] || lang == "en" then text
    else if |text| <= MaxLength then
      match translate(text, lang)
      case None => text
      case Some(t) => t
    else
      match TranslateAll(RenderAll(Groups(sentTokenize(text))), lang, translate)
      case None => text
      case Some(ts) => Join(" ", ts)
  }

  /** translate_text, with the chunking loop and its early return on failure. */
  method TranslateText(text: string, lang: string, available: bool,
                       translate: (string, string) -> Option<string>,
                       sentTokenize: string -> seq<string>)
    returns (r: string)
    ensures r == TranslationOf(text, lang, available, translate, sentTokenize)
  {
    if !available {
      return text;
    }
    if text == [] || lang == "en" {
      return text;
    }
    if |text| <= MaxLength {
      var t := translate(text, lang);
      if t.None? {
        return text;
      }
      return t.value;
    }
    var chunks := TranslateChunks(sentTokenize(text), lang, translate);
    if chunks.None? {
      return text;
    }
    return Join(" ", chunks.value);
  }

  /** The chunking loop: sentences are packed greedily and each full chunk is
      translated as it closes; None as soon as a translation raises. */
  method TranslateChunks(sentences: seq<string>, lang: string, translate: (string, string) -> Option<string>)
    returns (r: Option<seq<string>>)
    ensures r == TranslateAll(RenderAll(Groups(sentences)), lang, translate)
  {
    var translated: seq<string> := [];
    var current := "";
    ghost var done: seq<seq<string>> := [];
    ghost var group: seq<string> := [];
    for i := 0 to |sentences|
      invariant Pack(sentences[..i]) == Packing(done, group)
      invariant current == Render(group)
      invariant TranslateAll(RenderAll(done), lang, translate) == Some(translated)
    {
      var sentence := sentences[i];
      if |current| + |sentence| < MaxLength {
        JoinStep(sentences, i, done, group);
        current := current + sentence + " ";
        group := group + [sentence];
      } else {
        RenderEmpty(group);
        if current != "" {
          var t := translate(current, lang);
          if t.None? {
            ClosedGroupFails(sentences, i, done, group, lang, translate);
            return None;
          }
          CloseStep(sentences, i, done, group);
          TranslateAllSnoc(done, group, translated, lang, translate);
          translated := translated + [t.value];
          done := done + [group];
        } else {
          StartStep(sentences, i, done);
        }
        current := sentence + " ";
        group := [sentence];
      }
    }
    assert sentences[..|sentences|] == sentences;
    RenderEmpty(group);
    LastChunk(sentences, done, group, translated, lang, translate);
    if current != "" {
      var t := translate(current, lang);
      if t.None? {
        return None;
      }
      translated := translated + [t.value];
    }
    return Some(translated);
  }

  /** The last group is translated after the loop, when it holds anything. */
  lemma LastChunk(sents: seq<string>, done: seq<seq<string>>, group: seq<string>, translated: seq<string>,
                  lang: string, translate: (string, string) -> Option<string>)
    requires Pack(sents) == Packing(done, group)
    requires TranslateAll(RenderAll(done), lang, translate) == Some(translated)
    ensures group == [] ==> TranslateAll(RenderAll(Groups(sents)), lang, translate) == Some(translated)
    ensures group != [] && translate(Render(group), lang).None? ==>
      TranslateAll(RenderAll(Groups(sents)), lang, translate) == None
    ensures group != [] && translate(Render(group), lang).Some? ==>
      TranslateAll(RenderAll(Groups(sents)), lang, translate)
        == Some(translated + [translate(Render(group), lang).value])
  {
    if group != [] {
      RenderAllSnoc(done, group);
      var c := RenderAll(done + [group]);
      assert c[..|c| - 1] == RenderAll(done);
    }
  }

  /** A group closed before sentence i whose translation raises makes the
      whole translation fail. */
  lemma ClosedGroupFails(sents: seq<string>, i: nat, done: seq<seq<string>>, group: seq<string>,
                         lang: string, translate: (string, string) -> Option<string>)
    requires i < |sents| && Pack(sents[..i]) == Packing(done, group) && group != []
    requires |Render(group)| + |sents[i]| >= MaxLength && translate(Render(group), lang).None?
    ensures TranslateAll(RenderAll(Groups(sents)), lang, translate) == None
  {
    CloseStep(sents, i, done, group);
    PackDonePrefix(sents, i + 1);
    FailedGroupFailsAll(done, group, Groups(sents), lang, translate);
  }

  /** Groups that begin with a group whose translation raises fail as a whole. */
  lemma FailedGroupFailsAll(done: seq<seq<string>>, group: seq<string>, groups: seq<seq<string>>,
                            lang: string, translate: (string, string) -> Option<string>)
    requires done + [group] <= groups && translate(Render(group), lang).None?
    ensures TranslateAll(RenderAll(groups), lang, translate) == None
  {
    LastGroupFails(done, group, lang, translate);
    RenderAllPrefix(done + [group], groups);
    TranslateAllPrefixFails(RenderAll(groups), RenderAll(done + [group]), lang, translate);
  }

  /** A group whose translation raises fails the groups it ends. */
  lemma LastGroupFails(done: seq<seq<string>>, group: seq<string>,
                       lang: string, translate: (string, string) -> Option<string>)
    requires translate(Render(group), lang).None?
    ensures TranslateAll(RenderAll(done + [group]), lang, translate) == None
  {
    RenderAllSnoc(done, group);
    var c := RenderAll(done + [group]);
    assert c[..|c| - 1] == RenderAll(done) && c[|c| - 1] == Render(group);
  }

  lemma RenderAllPrefix(a: seq<seq<string>>, b: seq<seq<string>>)
    requires a <= b
    ensures RenderAll(a) <= RenderAll(b)
  {
    assert RenderAll(a) == RenderAll(b)[..|a|];
  }

  lemma TranslateAllSnoc(done: seq<seq<string>>, group: seq<string>, translated: seq<string>,
                         lang: string, translate: (string, string) -> Option<string>)
    requires TranslateAll(RenderAll(done), lang, translate) == Some(translated)
    requires translate(Render(group), lang).Some?
    ensures TranslateAll(RenderAll(done + [group]), lang, translate)
      == Some(translated + [translate(Render(group), lang).value])
  {
    RenderAllSnoc(done, group);
    var c := RenderAll(done + [group]);
    assert c[..|c| - 1] == RenderAll(done);
  }

  lemma PackStep(sents: seq<string>, i: nat)
    requires i < |sents|
    ensures Pack(sents[..i + 1]) ==
      var p := Pack(sents[..i]);
      if |Render(p.current)| + |sents[i]| < MaxLength then Packing(p.done, p.current + [sents[i]])
      else Packing(if p.current != [] then p.done + [p.current] else p.done, [sents[i]])
  {
    assert sents[..i + 1][..i] == sents[..i];
  }

  /** The sentence fits: it joins the current group. */
  lemma JoinStep(sents: seq<string>, i: nat, done: seq<seq<string>>, group: seq<string>)
    requires i < |sents| && Pack(sents[..i]) == Packing(done, group)
    requires |Render(group)| + |sents[i]| < MaxLength
    ensures Pack(sents[..i + 1]) == Packing(done, group + [sents[i]])
    ensures Render(group + [sents[i]]) == Render(group) + sents[i] + " "
  {
    PackStep(sents, i);
    RenderSnoc(group, sents[i]);
  }

  /** The sentence does not fit: the current group is closed and the sentence starts the next. */
  lemma CloseStep(sents: seq<string>, i: nat, done: seq<seq<string>>, group: seq<string>)
    requires i < |sents| && Pack(sents[..i]) == Packing(done, group) && group != []
    requires |Render(group)| + |sents[i]| >= MaxLength
    ensures Pack(sents[..i + 1]) == Packing(done + [group], [sents[i]])
    ensures Render([sents[i]]) == sents[i] + " "
  {
    PackStep(sents, i);
    assert Pack(sents[..i]).current == group && Pack(sents[..i]).done == done;
    RenderSnoc([], sents[i]);
  }

  /** The sentence does not fit even alone: it starts a group of its own. */
  lemma StartStep(sents: seq<string>, i: nat, done: seq<seq<string>>)
    requires i < |sents| && Pack(sents[..i]) == Packing(done, [])
    requires |sents[i]| >= MaxLength
    ensures Pack(sents[..i + 1]) == Packing(done, [sents[i]])
    ensures Render([sents[i]]) == sents[i] + " "
  {
    PackStep(sents, i);
    RenderSnoc([], sents[i]);
  }

  lemma RenderSnoc(g: seq<string>, s: string)
    ensures Render(g + [s]) == Render(g) + s + " "
  {
    assert (g + [s])[..|g|] == g;
  }

  lemma RenderAllSnoc(groups: seq<seq<string>>, g: seq<string>)
    ensures RenderAll(groups + [g]) == RenderAll(groups) + [Render(g)]
  {
  }

  /** A group renders to the empty text exactly when it is empty. */
  lemma RenderEmpty(g: seq<string>)
    ensures Render(g) == "" <==> g == []
  {
  }

  /** When a prefix of the chunks fails, the whole translation fails. */
  lemma {:induction false} TranslateAllPrefixFails(chunks: seq<string>, pre: seq<string>, lang: string,
                                                   translate: (string, string) -> Option<string>)
    requires pre <= chunks && TranslateAll(pre, lang, translate).None?
    ensures TranslateAll(chunks, lang, translate).None?
    decreases |chunks|
  {
    if |chunks| > |pre| {
      TranslateAllPrefixFails(chunks[..|chunks| - 1], pre, lang, translate);
    } else {
      assert pre == chunks;
    }
  }

  /** The groups closed after i sentences are the first groups of the whole packing. */
  lemma {:induction false} PackDonePrefix(sents: seq<string>, i: nat)
    requires i <= |sents|
    ensures Pack(sents[..i]).done <= Groups(sents)
    decreases |sents| - i
  {
    if i == |sents| {
      assert sents[..i] == sents;
    } else {
      PackDonePrefix(sents, i + 1);
      assert sents[..i + 1][..i] == sents[..i];
    }
  }

  // ---- what the chunking promises ----

  lemma RenderAppend(a: seq<string>, b: seq<string>)
    ensures Render(a + b) == Render(a) + Render(b)
    decreases |b|
  {
    if b != [] {
      var b' := b[..|b| - 1];
      assert (a + b)[..|a + b| - 1] == a + b';
      RenderAppend(a, b');
    } else {
      assert a + b == a;
    }
  }

  /** Chunking loses and adds nothing: the sentences of the groups are the
      sentences of the text, in order. */
  lemma {:induction false} PackCovers(sents: seq<string>)
    ensures Flatten(Pack(sents).done) + Pack(sents).current == sents
  {
    if sents != [] {
      var pre := sents[..|sents| - 1];
      PackCovers(pre);
      var p := Pack(pre);
      var s := sents[|sents| - 1];
      var q := Pack(sents);
      assert sents == pre + [s];
      if |Render(p.current)| + |s| < MaxLength {
        assert q == Packing(p.done, p.current + [s]);
        Seqs.SeqAssoc(Flatten(p.done), p.current, [s]);
      } else if p.current != [] {
        assert q == Packing(p.done + [p.current], [s]);
        FlattenSnoc(p.done, p.current);
      } else {
        assert q == Packing(p.done, [s]);
        assert Flatten(p.done) == pre;
      }
    }
  }

  lemma FlattenSnoc(groups: seq<seq<string>>, g: seq<string>)
    ensures Flatten(groups + [g]) == Flatten(groups) + g
  {
    assert (groups + [g])[..|groups|] == groups;
  }

  /** The chunks sent, concatenated, are every sentence followed by one space. */
  lemma ChunksCover(sents: seq<string>)
    ensures ConcatRendered(Groups(sents)) == Render(sents)
  {
    PackCovers(sents);
    var p := Pack(sents);
    ConcatFlatten(p.done);
    RenderAppend(Flatten(p.done), p.current);
    if p.current != [] {
      assert Groups(sents)[..|Groups(sents)| - 1] == p.done;
    }
  }

  lemma {:induction false} ConcatFlatten(groups: seq<seq<string>>)
    ensures ConcatRendered(groups) == Render(Flatten(groups))
  {
    if groups != [] {
      var pre := groups[..|groups| - 1];
      ConcatFlatten(pre);
      RenderAppend(Flatten(pre), groups[|groups| - 1]);
    }
  }

  /** No chunk is empty, and a chunk of two or more sentences is at most MaxLength long. */
  predicate GoodGroup(g: seq<string>) {
    g != [] && (|g| >= 2 ==> |Render(g)| <= MaxLength)
  }

  lemma {:induction false} PackGood(sents: seq<string>)
    ensures forall k :: 0 <= k < |Pack(sents).done| ==> GoodGroup(Pack(sents).done[k])
    ensures Pack(sents).current == [] || GoodGroup(Pack(sents).current)
    ensures sents != [] ==> Pack(sents).current != []
  {
    if sents != [] {
      var pre := sents[..|sents| - 1];
      PackGood(pre);
      var p := Pack(pre);
      var s := sents[|sents| - 1];
      if |Render(p.current)| + |s| < MaxLength {
        var g := p.current + [s];
        assert g[..|g| - 1] == p.current;
      }
    }
  }

  lemma GroupsGood(sents: seq<string>)
    ensures forall k :: 0 <= k < |Groups(sents)| ==> GoodGroup(Groups(sents)[k])
  {
    PackGood(sents);
  }

  /** The packing is greedy: each closed group was closed because the next
      sentence would have reached MaxLength. */
  predicate Greedy(done: seq<seq<string>>, current: seq<string>) {
    (forall k :: 0 < k < |done| ==> done[k] != [] && |Render(done[k - 1])| + |done[k][0]| >= MaxLength)
    && (done != [] ==> current != [] && |Render(done[|done| - 1])| + |current[0]| >= MaxLength)
  }

  lemma {:induction false} PackGreedy(sents: seq<string>)
    ensures Greedy(Pack(sents).done, Pack(sents).current)
  {
    if sents != [] {
      var pre := sents[..|sents| - 1];
      PackGreedy(pre);
      PackGood(pre);
      var p := Pack(pre);
      var s := sents[|sents| - 1];
      if |Render(p.current)| + |s| < MaxLength {
        if p.done != [] {
          assert (p.current + [s])[0] == p.current[0];
        }
      } else if p.current != [] {
        GreedyClose(p.done, p.current, s);
      }
    }
  }

  lemma GreedyClose(done: seq<seq<string>>, current: seq<string>, s: string)
    requires Greedy(done, current) && current != []
    requires |Render(current)| + |s| >= MaxLength
    ensures Greedy(done + [current], [s])
  {
    var d := done + [current];
    forall k | 0 < k < |d|
      ensures d[k] != [] && |Render(d[k - 1])| + |d[k][0]| >= MaxLength
    {
      assert d[k - 1] == done[k - 1];
      if k < |done| {
        assert d[k] == done[k];
      }
    }
  }

  /** Consecutive chunks sent are maximal: the first sentence of each chunk
      would not have fitted in the chunk before it. */
  lemma GroupsGreedy(sents: seq<string>)
    ensures forall k :: 0 < k < |Groups(sents)| ==>
      Groups(sents)[k] != [] && |Render(Groups(sents)[k - 1])| + |Groups(sents)[k][0]| >= MaxLength
  {
    PackGreedy(sents);
    var p := Pack(sents);
    var gs := Groups(sents);
    forall k | 0 < k < |gs|
      ensures gs[k] != [] && |Render(gs[k - 1])| + |gs[k][0]| >= MaxLength
    {
      assert gs[k - 1] == p.done[k - 1];
      if k < |p.done| {
        assert gs[k] == p.done[k];
      }
    }
  }

  /** The translation succeeds exactly when every chunk does, one result per chunk. */
  lemma {:induction false} TranslateAllSome(chunks: seq<string>, lang: string,
                                            translate: (string, string) -> Option<string>)
    ensures TranslateAll(chunks, lang, translate).Some? <==>
      forall k :: 0 <= k < |chunks| ==> translate(chunks[k], lang).Some?
    ensures TranslateAll(chunks, lang, translate).Some? ==>
      var ts := TranslateAll(chunks, lang, translate).value;
      |ts| == |chunks| && forall k :: 0 <= k < |chunks| ==> Some(ts[k]) == translate(chunks[k], lang)
  {
    if chunks != [] {
      var pre := chunks[..|chunks| - 1];
      TranslateAllSome(pre, lang, translate);
      assert forall k :: 0 <= k < |pre| ==> pre[k] == chunks[k];
    }
  }

  /** English, an empty text or a missing translator leave the text as it is;
      so does any failure of the translator. */
  lemma TranslationFallsBack(text: string, lang: string, available: bool,
                             translate: (string, string) -> Option<string>,
                             sentTokenize: string -> seq<string>)
    requires !available || text == [] || lang == "en"
      || (|text| <= MaxLength && translate(text, lang).None?)
      || (|text| > MaxLength && exists k :: (0 <= k < |Groups(sentTokenize(text))|
            && translate(Render(Groups(sentTokenize(text))[k]), lang).None?))
    ensures TranslationOf(text, lang, available, translate, sentTokenize) == text
  {
    var chunks := RenderAll(Groups(sentTokenize(text)));
    TranslateAllSome(chunks, lang, translate);
  }

  // ---- translate_ui ----

  /** The interface labels and their Hindi, Marathi and Kannada renderings. */
  const Labels: map<string, map<string, string>> := map[
    "hi" := map[
      "Quick Summary" := "त्वरित सारांश",
      "Key Topics" := "मुख्य विषय",
      "Read Full" := "पूरा पढ़ें",
      "Listen" := "सुनें",
      "Just now" := "अभी",
      "articles loaded" := "लेख लोड",
      "Loading" := "लोड हो रहा है",
      "Load 10 More" := "10 और लोड करें"],
    "mr" := map[
      "Quick Summary" := "द्रुत सारांश",
      "Key Topics" := "मुख्य विषय",
      "Read Full" := "संपूर्ण वाचा",
      "Listen" := "ऐका",
      "Just now" := "आत्ताच",
      "articles loaded" := "लेख लोड",
      "Loading" := "लोड होत आहे",
      "Load 10 More" := "आणखी 10 लोड करा"],
    "kn" := map[
      "Quick Summary" := "ತ್ವರಿತ ಸಾರಾಂಶ",
      "Key Topics" := "ಪ್ರಮುಖ ವಿಷಯಗಳು",
      "Read Full" := "ಸಂಪೂರ್ಣ ಓದಿ",
      "Listen" := "ಕೇಳಿ",
      "Just now" := "ಈಗ",
      "articles loaded" := "ಲೇಖನಗಳು",
      "Loading" := "ಲೋಡ್ ಆಗುತ್ತಿದೆ",
      "Load 10 More" := "ಇನ್ನೂ 10 ಲೋಡ್"]]

  /** The eight labels every language translates. */
  const UiLabels: set<string> :=
    {"Quick Summary", "Key Topics", "Read Full", "Listen", "Just now", "articles loaded", "Loading", "Load 10 More"}

  /** translate_ui(text, lang): the dictionary entry, or the text itself. */
  function TranslateUi(text: string, lang: string): (r: string)
    ensures lang == "en" ==> r == text
    ensures r == text || (lang in Labels && text in Labels[lang] && r == Labels[lang][text])
  {
    if lang == "en" then text
    else if lang in Labels && text in Labels[lang] then Labels[lang][text]
    else text
  }

  /** A label is translated exactly when the language is in the dictionary and
      the label is one of the eight; English, unknown labels and unknown
      languages come back unchanged. */
  lemma UiCoverage(text: string, lang: string)
    ensures (lang == "en" || lang !in Labels || text !in UiLabels) ==> TranslateUi(text, lang) == text
    ensures lang in Labels && text in UiLabels ==> TranslateUi(text, lang) == Labels[lang][text]
  {
    if lang in Labels {
      assert lang == "hi" || lang == "mr" || lang == "kn";
      assert Labels[lang].Keys == UiLabels;
    }
  }
}
