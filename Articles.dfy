/** fetch_article: the title and body text of one article page. */
module Articles {
  import opened Text
  import opened Seqs
  import opened Wrappers
  import Titles

  /** What the parsed page offers once script, style, nav, footer, header and
      aside elements are removed. */
  datatype Page = Page(
    heading: Option<string>,         // stripped text of the first h1, if there is one
    containers: seq<seq<string>>,    // stripped paragraph texts of each article, div or main element
                                     // whose class mentions article, story, content, post or body
    paragraphs: seq<string>,         // stripped text of every p element, in document order
    fetchedAt: int)                  // the clock reading taken when the record is built

  /** An article record: title, url, body text and the time it was fetched. */
  datatype Article = Article(title: string, url: string, content: string, time: int)

  /** What one paragraph adds to the text: itself and a space when it is longer than 30 characters. */
  function Kept(p: string): string {
    if |p| > 30 then p + " " else ""
  }

  /** The text the paragraphs of one container add. */
  function Long(ps: seq<string>): string {
    if ps == [] then "" else Long(ps[..|ps| - 1]) + Kept(ps[|ps| - 1])
  }

  /** The text of a run of whole containers. */
  function LongAll(cs: seq<seq<string>>): string {
    if cs == [] then "" else Long(cs[0]) + LongAll(cs[1..])
  }

  /** The container tier: whole containers are added until the text exceeds 300 characters. */
  function ContainerTier(acc: string, cs: seq<seq<string>>): (r: string)
    ensures acc <= r
    ensures |r| > 300 || r == acc + LongAll(cs)
    decreases |cs|
  {
    if cs == [] then acc
    else
      var a := acc + Long(cs[0]);
      if |a| > 300 then a
      else
        SeqAssoc(acc, Long(cs[0]), LongAll(cs[1..]));
        ContainerTier(a, cs[1..])
  }

  /** The page-wide tier: paragraphs are added until the text exceeds 500 characters. */
  function PageTier(acc: string, ps: seq<string>): (r: string)
    ensures acc <= r
    ensures |r| > 500 || r == acc + Long(ps)
    decreases |ps|
  {
    if ps == [] then acc
    else
      var a := acc + Kept(ps[0]);
      if |a| > 500 then a
      else
        assert ps == [ps[0]] + ps[1..];
        LongCons(ps[0], ps[1..]);
        SeqAssoc(acc, Kept(ps[0]), Long(ps[1..]));
        PageTier(a, ps[1..])
  }

  /** The text before whitespace is collapsed: the first three containers,
      then, when that gives under 200 characters, the page-wide paragraphs
      appended to it. */
  function RawText(page: Page): (r: string)
    ensures ContainerTier("", Take(page.containers, 3)) <= r
    ensures var t := ContainerTier("", Take(page.containers, 3));
      |t| < 200 && |r| <= 500 ==> r == t + Long(page.paragraphs)
  {
    var t := ContainerTier("", Take(page.containers, 3));
    if |t| < 200 then PageTier(t, page.paragraphs) else t
  }

  /** The record's title: the h1 text, or one derived from the body when the h1 is missing or blank. */
  function TitleFor(heading: Option<string>, text: string, sentTokenize: string -> seq<string>): (r: string)
    ensures r != []
    ensures heading.Some? && Strip(heading.value) != [] ==> r == heading.value
  {
    HeadingNonEmpty(heading);
    if heading.None? || Strip(heading.value) == [] then Titles.CleanTitle("", text, sentTokenize)
    else heading.value
  }

  /** fetch_article(url) given the page the request returned (None when it failed). */
  function ArticleOf(url: string, response: Option<Page>, sentTokenize: string -> seq<string>): (r: Option<Article>)
    ensures response.None? ==> r.None?
    ensures r.Some? ==> r.value.url == url && |r.value.content| > 150 && r.value.title != []
  {
    match response
    case None => None
    case Some(page) =>
      var text := Collapse(RawText(page));
      if |text| > 150 then Some(Article(TitleFor(page.heading, text, sentTokenize), url, text, page.fetchedAt))
      else None
  }

  /** fetch_article: the text is grown tier by tier, then collapsed and given a title. */
  method FetchArticle(url: string, response: Option<Page>, sentTokenize: string -> seq<string>)
    returns (r: Option<Article>)
    ensures r == ArticleOf(url, response, sentTokenize)
  {
    if response.None? {
      return None;
    }
    var page := response.value;
    var text := GatherContainers(Take(page.containers, 3));
    ghost var containerText := text;
    if |text| < 200 {
      text := GatherParagraphs(text, page.paragraphs);
    }
    RawTextTiers(page, containerText, text);
    text := Collapse(text);
    var title := page.heading;
    if (title.None? || Strip(title.value) == []) && text != [] {
      title := Some(Titles.CleanTitle("", text, sentTokenize));
    }
    if text != [] && |text| > 150 {
      var t := if title.Some? && title.value != [] then title.value else "Article";
      HeadingNonEmpty(page.heading);
      return Some(Article(t, url, text, page.fetchedAt));
    }
    return None;
  }

  /** The loop over the first containers, breaking once the text passes 300 characters. */
  method GatherContainers(arts: seq<seq<string>>) returns (text: string)
    ensures text == ContainerTier("", arts)
  {
    text := "";
    var c := 0;
    while c < |arts|
      invariant 0 <= c <= |arts|
      invariant ContainerTier(text, arts[c..]) == ContainerTier("", arts)
    {
      ghost var before := text;
      text := AppendParagraphs(text, arts[c]);
      ContainerStep(before, arts, c);
      if |text| > 300 {
        break;
      }
      c := c + 1;
    }
  }

  /** The inner loop: the long paragraphs of one container appended to the text. */
  method AppendParagraphs(start: string, ps: seq<string>) returns (text: string)
    ensures text == start + Long(ps)
  {
    text := start;
    for k := 0 to |ps|
      invariant text == start + Long(ps[..k])
    {
      var p := ps[k];
      ghost var before := text;
      if |p| > 30 {
        text := text + (p + " ");
      }
      assert text == before + Kept(p);
      LongStep(start, ps, k);
    }
    assert ps[..|ps|] == ps;
  }

  /** The loop over every paragraph of the page, breaking once the text passes 500 characters. */
  method GatherParagraphs(start: string, ps: seq<string>) returns (text: string)
    ensures text == PageTier(start, ps)
  {
    text := start;
    var k := 0;
    while k < |ps|
      invariant 0 <= k <= |ps|
      invariant PageTier(text, ps[k..]) == PageTier(start, ps)
    {
      ghost var before := text;
      if |ps[k]| > 30 {
        text := text + (ps[k] + " ");
      } else {
        assert before + Kept(ps[k]) == before;
      }
      PageStep(before, ps, k);
      if |text| > 500 {
        break;
      }
      k := k + 1;
    }
  }

  lemma RawTextTiers(page: Page, containerText: string, text: string)
    requires containerText == ContainerTier("", Take(page.containers, 3))
    requires |containerText| < 200 ==> text == PageTier(containerText, page.paragraphs)
    requires |containerText| >= 200 ==> text == containerText
    ensures text == RawText(page)
  {
  }

  /** A heading that is not blank is not empty. */
  lemma HeadingNonEmpty(heading: Option<string>)
    ensures heading.Some? && Strip(heading.value) != [] ==> heading.value != []
  {
  }

  lemma ContainerStep(acc: string, cs: seq<seq<string>>, c: nat)
    requires c < |cs|
    ensures ContainerTier(acc, cs[c..]) ==
      var a := acc + Long(cs[c]); if |a| > 300 then a else ContainerTier(a, cs[c + 1..])
  {
    assert cs[c..][1..] == cs[c + 1..];
  }

  lemma PageStep(acc: string, ps: seq<string>, k: nat)
    requires k < |ps|
    ensures PageTier(acc, ps[k..]) ==
      var a := acc + Kept(ps[k]); if |a| > 500 then a else PageTier(a, ps[k + 1..])
  {
    assert ps[k..][1..] == ps[k + 1..];
  }

  // ---- what the extractor promises ----

  lemma {:induction false} LongAppend(a: seq<string>, b: seq<string>)
    ensures Long(a + b) == Long(a) + Long(b)
    decreases |b|
  {
    if b == [] {
      assert a + b == a;
    } else {
      var b' := b[..|b| - 1];
      var x := b[|b| - 1];
      assert b == b' + [x];
      assert a + b == (a + b') + [x];
      LongSnoc(a + b', x);
      LongSnoc(b', x);
      LongAppend(a, b');
      SeqAssoc(Long(a), Long(b'), Kept(x));
    }
  }

  lemma LongSnoc(ps: seq<string>, p: string)
    ensures Long(ps + [p]) == Long(ps) + Kept(p)
  {
    assert (ps + [p])[..|ps|] == ps;
  }

  /** One more paragraph of a container: its kept text goes at the end. */
  lemma LongStep(start: string, ps: seq<string>, k: nat)
    requires k < |ps|
    ensures start + Long(ps[..k + 1]) == (start + Long(ps[..k])) + Kept(ps[k])
  {
    assert ps[..k + 1] == ps[..k] + [ps[k]];
    LongSnoc(ps[..k], ps[k]);
    SeqAssoc(start, Long(ps[..k]), Kept(ps[k]));
  }

  lemma LongSingle(p: string)
    ensures Long([p]) == Kept(p)
  {
    assert [p][..0] == [];
    assert Long([p]) == Long([]) + Kept(p);
  }

  lemma LongCons(p: string, ps: seq<string>)
    ensures Long([p] + ps) == Kept(p) + Long(ps)
  {
    LongAppend([p], ps);
    LongSingle(p);
  }

  /** How many containers the container tier takes. */
  function ContainerStop(acc: string, cs: seq<seq<string>>): (k: nat)
    ensures k <= |cs| && (cs != [] ==> 1 <= k)
    decreases |cs|
  {
    if cs == [] then 0
    else if |acc + Long(cs[0])| > 300 then 1
    else 1 + ContainerStop(acc + Long(cs[0]), cs[1..])
  }

  /** How many paragraphs the page-wide tier looks at. */
  function PageStop(acc: string, ps: seq<string>): (k: nat)
    ensures k <= |ps| && (ps != [] ==> 1 <= k)
    decreases |ps|
  {
    if ps == [] then 0
    else if |acc + Kept(ps[0])| > 500 then 1
    else 1 + PageStop(acc + Kept(ps[0]), ps[1..])
  }

  /** The container tier takes whole containers: exactly the first k of them,
      where k is the first count whose text exceeds 300 characters, or all. */
  lemma ContainerTierWhole(acc: string, cs: seq<seq<string>>)
    ensures exists k :: (0 <= k <= |cs|
      && ContainerTier(acc, cs) == acc + LongAll(cs[..k])
      && (k < |cs| ==> |acc + LongAll(cs[..k])| > 300)
      && (forall j :: 1 <= j < k ==> |acc + LongAll(cs[..j])| <= 300))
  {
    var k := ContainerStop(acc, cs);
    ContainerStopTakes(acc, cs);
    forall j | 1 <= j < k ensures |acc + LongAll(cs[..j])| <= 300 {
      ContainerStopBefore(acc, cs, j);
    }
    assert 0 <= k <= |cs|
      && ContainerTier(acc, cs) == acc + LongAll(cs[..k])
      && (k < |cs| ==> |acc + LongAll(cs[..k])| > 300);
  }

  lemma {:induction false} ContainerStopTakes(acc: string, cs: seq<seq<string>>)
    ensures ContainerTier(acc, cs) == acc + LongAll(cs[..ContainerStop(acc, cs)])
    ensures ContainerStop(acc, cs) < |cs| ==> |acc + LongAll(cs[..ContainerStop(acc, cs)])| > 300
    decreases |cs|
  {
    if cs == [] {
      assert cs[..0] == [];
    } else {
      var a := acc + Long(cs[0]);
      if |a| > 300 {
        ContainerShift(acc, cs, 1);
        assert cs[1..][..0] == [];
      } else {
        var r := cs[1..];
        var k := ContainerStop(a, r);
        ContainerStopTakes(a, r);
        assert ContainerStop(acc, cs) == k + 1;
        assert ContainerTier(acc, cs) == ContainerTier(a, r) == a + LongAll(r[..k]);
        ContainerShift(acc, cs, k + 1);
      }
    }
  }

  lemma {:induction false} ContainerStopBefore(acc: string, cs: seq<seq<string>>, j: nat)
    requires 1 <= j < ContainerStop(acc, cs)
    ensures |acc + LongAll(cs[..j])| <= 300
    decreases |cs|
  {
    var a := acc + Long(cs[0]);
    ContainerShift(acc, cs, j);
    if j == 1 {
      assert cs[1..][..0] == [];
    } else {
      ContainerStopBefore(a, cs[1..], j - 1);
    }
  }

  /** One more container at the front: its text joins the accumulator. */
  lemma ContainerShift(acc: string, cs: seq<seq<string>>, j: nat)
    requires 1 <= j <= |cs|
    ensures acc + LongAll(cs[..j]) == (acc + Long(cs[0])) + LongAll(cs[1..][..j - 1])
  {
    assert cs[..j][0] == cs[0];
    assert cs[..j][1..] == cs[1..][..j - 1];
    SeqAssoc(acc, Long(cs[0]), LongAll(cs[1..][..j - 1]));
  }

  /** The page-wide tier adds paragraphs one at a time: exactly the first k,
      where k is the first count whose text exceeds 500 characters, or all. */
  lemma PageTierStops(acc: string, ps: seq<string>)
    ensures exists k :: (0 <= k <= |ps|
      && PageTier(acc, ps) == acc + Long(ps[..k])
      && (k < |ps| ==> |acc + Long(ps[..k])| > 500)
      && (forall j :: 1 <= j < k ==> |acc + Long(ps[..j])| <= 500))
  {
    var k := PageStop(acc, ps);
    PageStopTakes(acc, ps);
    forall j | 1 <= j < k ensures |acc + Long(ps[..j])| <= 500 {
      PageStopBefore(acc, ps, j);
    }
    assert 0 <= k <= |ps|
      && PageTier(acc, ps) == acc + Long(ps[..k])
      && (k < |ps| ==> |acc + Long(ps[..k])| > 500);
  }

  lemma {:induction false} PageStopTakes(acc: string, ps: seq<string>)
    ensures PageTier(acc, ps) == acc + Long(ps[..PageStop(acc, ps)])
    ensures PageStop(acc, ps) < |ps| ==> |acc + Long(ps[..PageStop(acc, ps)])| > 500
    decreases |ps|
  {
    if ps == [] {
      assert ps[..0] == [];
    } else {
      var a := acc + Kept(ps[0]);
      if |a| > 500 {
        assert ps[..1] == [ps[0]];
        LongSingle(ps[0]);
      } else {
        var r := ps[1..];
        var k := PageStop(a, r);
        PageStopTakes(a, r);
        assert PageStop(acc, ps) == k + 1;
        assert PageTier(acc, ps) == PageTier(a, r) == a + Long(r[..k]);
        PageShift(acc, ps, k + 1);
      }
    }
  }

  lemma {:induction false} PageStopBefore(acc: string, ps: seq<string>, j: nat)
    requires 1 <= j < PageStop(acc, ps)
    ensures |acc + Long(ps[..j])| <= 500
    decreases |ps|
  {
    var a := acc + Kept(ps[0]);
    PageShift(acc, ps, j);
    if j == 1 {
      assert ps[1..][..0] == [];
    } else {
      PageStopBefore(a, ps[1..], j - 1);
    }
  }

  /** One more paragraph at the front of the tier: its text joins the accumulator. */
  lemma PageShift(acc: string, ps: seq<string>, j: nat)
    requires 1 <= j <= |ps|
    ensures acc + Long(ps[..j]) == (acc + Kept(ps[0])) + Long(ps[1..][..j - 1])
  {
    assert ps[..j] == [ps[0]] + ps[1..][..j - 1];
    LongCons(ps[0], ps[1..][..j - 1]);
    SeqAssoc(acc, Kept(ps[0]), Long(ps[1..][..j - 1]));
  }

  /** A record is produced exactly when the collapsed text exceeds 150
      characters; its body is that text, already whitespace-normal, its url
      the one requested, and its title is never empty. */
  lemma ArticleGate(url: string, page: Page, sentTokenize: string -> seq<string>)
    ensures ArticleOf(url, Some(page), sentTokenize).Some? <==> |Collapse(RawText(page))| > 150
    ensures ArticleOf(url, Some(page), sentTokenize).Some? ==>
      var a := ArticleOf(url, Some(page), sentTokenize).value;
      a.url == url && a.content == Collapse(RawText(page)) && |a.content| > 150
      && Collapse(a.content) == a.content && a.title != [] && a.time == page.fetchedAt
  {
    CollapseIdempotent(RawText(page));
  }
}
