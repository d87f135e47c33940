/** clean_title: turns a scraped headline (or, failing that, the opening of the
    article text) into a display title. */
module Titles {
  import opened Text

  /** Outlet names removed when they trail a headline as " - X", "| X" or ": X". */
  const Outlets: seq<string> :=
    ["BBC", "Reuters", "CNN", "Hindu", "NDTV", "ESPN", "Variety", "TechCrunch", "Bloomberg", "Guardian"]

  /** Filler removed after the outlet names, in this order. */
  const Fillers: seq<string> := ["NewsNews", "Latest", "Breaking"]

  /** Every pattern the title clean-up deletes, in the order it deletes them. */
  function NoisePatterns(outlets: seq<string>): seq<string>
    decreases |outlets|
  {
    if outlets == [] then Fillers
    else [" - " + outlets[0], "| " + outlets[0], ": " + outlets[0]] + NoisePatterns(outlets[1..])
  }

  /** Deletes every occurrence of each pattern in turn; a text containing none
      of them is returned as it is. */
  function RemoveEach(t: string, pats: seq<string>): (r: string)
    requires forall k :: 0 <= k < |pats| ==> pats[k] != []
    ensures |r| <= |t|
    ensures (forall k :: 0 <= k < |pats| ==> !Contains(t, pats[k])) ==> r == t
    decreases |pats|
  {
    if pats == [] then t else RemoveEach(RemoveAll(t, pats[0]), pats[1..])
  }

  lemma {:induction false} NoisePatternsNonEmpty(outlets: seq<string>)
    ensures forall k :: 0 <= k < |NoisePatterns(outlets)| ==> NoisePatterns(outlets)[k] != []
    decreases |outlets|
  {
    if outlets != [] {
      NoisePatternsNonEmpty(outlets[1..]);
    }
  }

  /** The characters stripped from both ends of the final title. */
  predicate IsEdge(c: char) {
    c == ' ' || c == '.' || c == '-' || c == ':'
  }

  /** The headline after outlet names and filler are deleted and whitespace collapsed. */
  function Denoised(title: string): (r: string)
    ensures Collapse(r) == r
  {
    NoisePatternsNonEmpty(Outlets);
    CollapseIdempotent(RemoveEach(Strip(title), NoisePatterns(Outlets)));
    Collapse(RemoveEach(Strip(title), NoisePatterns(Outlets)))
  }

  /** Fallback for a missing or short headline: the first sentence of the
      content, cut at its first comma. */
  function FromContent(t: string, content: string, sentTokenize: string -> seq<string>): (r: string)
    ensures |t| >= 10 ==> r == t
    ensures |t| < 10 && sentTokenize(content) == [] ==> r == t
    ensures |t| < 10 && sentTokenize(content) != [] ==>
      r <= sentTokenize(content)[0] && !Contains(r, ",")
      && (Contains(sentTokenize(content)[0], ",") ==> r + "," <= sentTokenize(content)[0])
  {
    if t != [] && |t| >= 10 then t
    else
      var sents := sentTokenize(content);
      if sents == [] then t
      else if Contains(sents[0], ",") then PrefixBefore(sents[0], ",")
      else sents[0]
  }

  /** Overlong titles are cut at the first " - ", or else to 18 words and an ellipsis. */
  function Shortened(t: string): (r: string)
    ensures |t| <= 120 ==> r == t
    ensures |t| > 120 && Contains(t, " - ") ==> r + " - " <= t && !Contains(r, " - ")
    ensures |t| > 120 && !Contains(t, " - ") ==> |r| >= 3 && r[|r| - 3..] == "..."
  {
    if |t| <= 120 then t
    else if Contains(t, " - ") then PrefixBefore(t, " - ")
    else Join(" ", if |Words(t)| <= 18 then Words(t) else Words(t)[..18]) + "..."
  }

  /** clean_title(title, content); sentTokenize stands for NLTK's sent_tokenize.
      The result is never empty and never starts or ends with ' ', '.', '-' or ':'. */
  function CleanTitle(title: string, content: string, sentTokenize: string -> seq<string>): (r: string)
    ensures r != []
    ensures !IsEdge(r[0]) && !IsEdge(r[|r| - 1])
  {
    var t := Shortened(FromContent(Denoised(title), content, sentTokenize));
    Finish(if IsUpper(t) then TitleCase(t) else t)
  }

  /** t.strip(' .-:') or "Article" */
  function Finish(t: string): (r: string)
    ensures r != []
    ensures !IsEdge(r[0]) && !IsEdge(r[|r| - 1])
  {
    var v := StripWhere(t, IsEdge);
    if v == [] then "Article" else v
  }


  lemma StripWhereKeeps(s: string, drop: char -> bool)
    requires s == [] || (!drop(s[0]) && !drop(s[|s| - 1]))
    ensures StripWhere(s, drop) == s
  {
  }

  /** A headline that is already clean (whitespace-normal, 10 to 120
      characters, not all capitals, no outlet suffix or filler, no stray
      punctuation at its ends) is returned unchanged: real titles are not
      overwritten. */
  lemma CleanTitleKeepsCleanHeadline(title: string, content: string, sentTokenize: string -> seq<string>)
    requires 10 <= |title| <= 120
    requires Collapse(title) == title
    requires !IsSpace(title[0]) && !IsSpace(title[|title| - 1])
    requires !IsEdge(title[0]) && !IsEdge(title[|title| - 1])
    requires !IsUpper(title)
    requires forall k :: 0 <= k < |NoisePatterns(Outlets)| ==> !Contains(title, NoisePatterns(Outlets)[k])
    ensures CleanTitle(title, content, sentTokenize) == title
  {
    StripWhereKeeps(title, IsSpace);
    NoisePatternsNonEmpty(Outlets);
    assert Denoised(title) == title;
    StripWhereKeeps(title, IsEdge);
  }

  /** With no headline and no sentence to borrow, the title is the literal "Article". */
  lemma CleanTitleDefault(content: string, sentTokenize: string -> seq<string>)
    requires sentTokenize(content) == []
    ensures CleanTitle("", content, sentTokenize) == "Article"
  {
    NoisePatternsNonEmpty(Outlets);
    assert Strip("") == "";
    assert Words("") == [];
    RemoveEachEmpty(NoisePatterns(Outlets));
    assert Denoised("") == "";
    assert !IsUpper("");
  }

  lemma {:induction false} RemoveEachEmpty(pats: seq<string>)
    requires forall k :: 0 <= k < |pats| ==> pats[k] != []
    ensures RemoveEach("", pats) == ""
    decreases |pats|
  {
    if pats != [] {
      RemoveEachEmpty(pats[1..]);
    }
  }
}
