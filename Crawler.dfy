/** fetch_category: link discovery on a listing page, then the crawl that
    extracts an article from each link in turn. */
module Crawler {
  import opened Text
  import opened Seqs
  import opened Wrappers
  import Articles

  /** An href is a candidate only when its lower-cased text mentions one of these. */
  const Positive: seq<string> := ["/article", "/story", "/news", "/20", "/blog", "/post"]

  /** A candidate href mentioning one of these is skipped. */
  const Negative: seq<string> := ["video", "gallery", "podcast", "live-reporting", "javascript:", "#"]

  /** Some marker occurs in s. */
  predicate Mentions(s: string, markers: seq<string>) {
    exists k :: 0 <= k < |markers| && Contains(s, markers[k])
  }

  /** The href is skipped outright, without the cap test after it. */
  predicate Skipped(href: string) {
    Mentions(Lower(href), Positive) && Mentions(Lower(href), Negative)
  }

  /** A positive marker and no negative one. */
  predicate Qualifies(href: string) {
    Mentions(Lower(href), Positive) && !Mentions(Lower(href), Negative)
  }

  /** '/'.join(url.split('/')[:3]): the scheme, the empty piece and the host. */
  function Origin(url: string): string {
    Join("/", Take(SplitOn(url, '/'), 3))
  }

  /** The link an href stands for: an href starting with "http" as it is, one
      starting with "/" appended to the origin of the listing page, and none otherwise. */
  function Resolve(href: string, url: string): (r: Option<string>)
    ensures r.Some? <==> "http" <= href || "/" <= href
  {
    if "http" <= href then Some(href)
    else if "/" <= href then Some(Origin(url) + href)
    else None
  }

  /** The links one anchor contributes: its resolved href when it qualifies. */
  function Found(href: string, url: string): (r: seq<string>)
    ensures Qualifies(href) && "http" <= href ==> r == [href]
    ensures Qualifies(href) && !("http" <= href) && "/" <= href ==> r == [Origin(url) + href]
    ensures !Qualifies(href) || (!("http" <= href) && !("/" <= href)) ==> r == []
  {
    if Qualifies(href) && Resolve(href, url).Some? then [Resolve(href, url).value] else []
  }

  /** Every link the anchors yield, when nothing stops the scan. */
  function AllFound(hrefs: seq<string>, url: string): seq<string>
    decreases |hrefs|
  {
    if hrefs == [] then [] else Found(hrefs[0], url) + AllFound(hrefs[1..], url)
  }

  /** The anchor scan from a list already holding `links`: after each anchor that
      is not skipped, the scan stops once the list holds `cap` links. */
  function Scan(links: seq<string>, hrefs: seq<string>, url: string, cap: nat): (r: seq<string>)
    ensures |links| < cap ==> |r| <= cap
    decreases |hrefs|
  {
    if hrefs == [] then links
    else if Skipped(hrefs[0]) then Scan(links, hrefs[1..], url, cap)
    else
      var l := links + Found(hrefs[0], url);
      if |l| >= cap then l else Scan(l, hrefs[1..], url, cap)
  }

  /** The early-stop cap: four times the articles wanted, counting the skipped offset. */
  function ScanCap(max: nat, offset: nat): nat {
    (max + offset) * 4
  }

  /** The links handed to the crawl: the scan deduplicated in first-seen order,
      then the window [offset, offset + 3 * max). */
  function Discovered(hrefs: seq<string>, url: string, max: nat, offset: nat): (r: seq<string>)
    ensures |r| <= max * 3
  {
    Slice(Distinct(Scan([], hrefs, url, ScanCap(max, offset))), offset, offset + max * 3)
  }

  /** The records an extractor returns for the links, in link order; the
      extractor answers None for a link it cannot use. */
  function Successes(links: seq<string>, extract: string -> Option<Articles.Article>): (r: seq<Articles.Article>)
    ensures |r| <= |links|
  {
    if links == [] then []
    else
      var s := Successes(links[..|links| - 1], extract);
      match extract(links[|links| - 1])
      case Some(a) => s + [a]
      case None => s
  }

  /** How many links the crawl loop looks at: it stops before the first link
      at which max records have already been gathered, or at the end. */
  function Examined(links: seq<string>, extract: string -> Option<Articles.Article>, max: nat): (k: nat)
    ensures k <= |links|
  {
    if links == [] then 0
    else if |Successes(links[..|links| - 1], extract)| >= max then Examined(links[..|links| - 1], extract, max)
    else |links|
  }

  /** fetch_article as the crawl's extractor. */
  function Extractor(fetch: string -> Option<Articles.Page>, sentTokenize: string -> seq<string>)
    : string -> Option<Articles.Article>
  {
    l => Articles.ArticleOf(l, fetch(l), sentTokenize)
  }

  /** fetch_category(url, max, offset): `listing` is the anchor hrefs of the
      listing page in document order (None when its request failed) and
      `fetch` the response for each link. */
  function CrawlOf(url: string, listing: Option<seq<string>>, fetch: string -> Option<Articles.Page>,
                   sentTokenize: string -> seq<string>, max: nat, offset: nat): (r: seq<Articles.Article>)
    ensures |r| <= max
    ensures listing.None? ==> r == []
  {
    match listing
    case None => []
    case Some(hrefs) => Take(Successes(Discovered(hrefs, url, max, offset), Extractor(fetch, sentTokenize)), max)
  }

  /** How many discovered links fetch_category(url, max, offset) looks at. */
  function CrawlExamined(url: string, listing: Option<seq<string>>, fetch: string -> Option<Articles.Page>,
                         sentTokenize: string -> seq<string>, max: nat, offset: nat): nat
  {
    match listing
    case None => 0
    case Some(hrefs) => Examined(Discovered(hrefs, url, max, offset), Extractor(fetch, sentTokenize), max)
  }

  /** The anchor loop, with its skip (`continue`) and its early break. */
  method DiscoverLinks(hrefs: seq<string>, url: string, cap: nat) returns (links: seq<string>)
    ensures links == Scan([], hrefs, url, cap)
  {
    links := [];
    var i := 0;
    while i < |hrefs|
      invariant 0 <= i <= |hrefs|
      invariant Scan(links, hrefs[i..], url, cap) == Scan([], hrefs, url, cap)
    {
      ScanStep(links, hrefs, i, url, cap);
      var skip, found := AnchorLink(hrefs[i], url);
      if skip {
        i := i + 1;
        continue;
      }
      links := links + found;
      if |links| >= cap {
        break;
      }
      i := i + 1;
    }
  }

  /** The tests the loop body applies to one href: skipped when it mentions a
      positive and a negative marker, otherwise the link it yields, if any. */
  method AnchorLink(href: string, url: string) returns (skip: bool, found: seq<string>)
    ensures skip == Skipped(href)
    ensures !skip ==> found == Found(href, url)
  {
    var low := Lower(href);
    skip := false;
    found := [];
    if Mentions(low, Positive) {
      if Mentions(low, Negative) {
        skip := true;
        return;
      }
      if "http" <= href {
        found := [href];
      } else if "/" <= href {
        found := [Origin(url) + href];
      }
    }
  }

  /** fetch_category: discovery, then the crawl loop. `examined` is how many
      of the discovered links the loop looked at. */
  method Crawl(url: string, listing: Option<seq<string>>, fetch: string -> Option<Articles.Page>,
               sentTokenize: string -> seq<string>, max: nat, offset: nat)
    returns (articles: seq<Articles.Article>, examined: nat)
    ensures articles == CrawlOf(url, listing, fetch, sentTokenize, max, offset)
    ensures examined == CrawlExamined(url, listing, fetch, sentTokenize, max, offset)
  {
    articles := [];
    examined := 0;
    if listing.None? {
      return;
    }
    var scanned := DiscoverLinks(listing.value, url, (max + offset) * 4);
    var links := Slice(Distinct(scanned), offset, offset + max * 3);
    articles, examined := FetchAll(links, fetch, sentTokenize, max);
  }

  /** The crawl loop: links in order, each handed to fetch_article, until max
      records have been gathered; the records are those of the links looked at. */
  method FetchAll(links: seq<string>, fetch: string -> Option<Articles.Page>,
                  sentTokenize: string -> seq<string>, max: nat)
    returns (articles: seq<Articles.Article>, examined: nat)
    ensures articles == Take(Successes(links, Extractor(fetch, sentTokenize)), max)
    ensures examined == Examined(links, Extractor(fetch, sentTokenize), max)
    ensures articles == Successes(links[..examined], Extractor(fetch, sentTokenize))
  {
    articles := [];
    var fetched := 0;
    ghost var extract := Extractor(fetch, sentTokenize);
    var i := 0;
    while i < |links|
      invariant 0 <= i <= |links|
      invariant articles == Successes(links[..i], extract)
      invariant fetched == |articles| <= max
      invariant i == 0 || |Successes(links[..i - 1], extract)| < max
    {
      if fetched >= max {
        break;
      }
      var link := links[i];
      var a := Articles.FetchArticle(link, fetch(link), sentTokenize);
      assert a == extract(link);
      SuccessesStep(links, i, extract);
      if a.Some? {
        fetched := fetched + 1;
        articles := articles + [a.value];
      }
      i := i + 1;
    }
    LoopExit(links, extract, max, i);
    examined := i;
  }

  /** Where the crawl loop stops, the records so far are the first max records
      of all the links, and the stopping point is Examined. */
  lemma LoopExit(links: seq<string>, extract: string -> Option<Articles.Article>, max: nat, i: nat)
    requires i <= |links|
    requires |Successes(links[..i], extract)| <= max
    requires i == 0 || |Successes(links[..i - 1], extract)| < max
    requires i == |links| || |Successes(links[..i], extract)| >= max
    ensures Successes(links[..i], extract) == Take(Successes(links, extract), max)
    ensures Examined(links, extract, max) == i
  {
    SuccessesPrefix(links, i, extract);
    if i == |links| {
      assert links[..i] == links;
    }
    ExaminedIs(links, extract, max, i);
  }

  lemma ScanStep(links: seq<string>, hrefs: seq<string>, i: nat, url: string, cap: nat)
    requires i < |hrefs|
    ensures Scan(links, hrefs[i..], url, cap) ==
      if Skipped(hrefs[i]) then Scan(links, hrefs[i + 1..], url, cap)
      else
        var l := links + Found(hrefs[i], url);
        if |l| >= cap then l else Scan(l, hrefs[i + 1..], url, cap)
  {
    assert hrefs[i..][1..] == hrefs[i + 1..];
  }

  /** One more link adds its record, if it yields one, after the others. */
  lemma SuccessesStep(links: seq<string>, i: nat, extract: string -> Option<Articles.Article>)
    requires i < |links|
    ensures Successes(links[..i + 1], extract) ==
      Successes(links[..i], extract) + (if extract(links[i]).Some? then [extract(links[i]).value] else [])
  {
    assert links[..i + 1][..i] == links[..i];
  }

  /** The records gathered from the first i links lead the records from all of them. */
  lemma {:induction false} SuccessesPrefix(links: seq<string>, i: nat, extract: string -> Option<Articles.Article>)
    requires i <= |links|
    ensures Successes(links[..i], extract) <= Successes(links, extract)
    decreases |links| - i
  {
    if i < |links| {
      SuccessesPrefix(links, i + 1, extract);
      assert links[..i + 1][..i] == links[..i];
    } else {
      assert links[..i] == links;
    }
  }

  /** Examined is the first position at which max records have been
      gathered, or the end of the links when that never happens. */
  lemma {:induction false} ExaminedIs(links: seq<string>, extract: string -> Option<Articles.Article>, max: nat, i: nat)
    requires i <= |links|
    requires i == 0 || |Successes(links[..i - 1], extract)| < max
    requires i == |links| || |Successes(links[..i], extract)| >= max
    ensures Examined(links, extract, max) == i
    decreases |links|
  {
    if links != [] {
      var p := links[..|links| - 1];
      if |Successes(p, extract)| >= max {
        assert i < |links|;
        assert links[..i] == p[..i];
        if i > 0 {
          assert links[..i - 1] == p[..i - 1];
        }
        ExaminedIs(p, extract, max, i);
      } else if i < |links| {
        assert links[..i] == p[..i];
        SuccessesPrefix(p, i, extract);
      }
    }
  }

  // ---- the scan ----

  /** Below the cap, the scan takes the first cap links the remaining anchors yield. */
  lemma {:induction false} ScanTakes(acc: seq<string>, hrefs: seq<string>, url: string, cap: nat)
    requires |acc| < cap
    ensures Scan(acc, hrefs, url, cap) == Take(acc + AllFound(hrefs, url), cap)
    decreases |hrefs|
  {
    if hrefs == [] {
      assert acc + [] == acc;
    } else {
      var f := Found(hrefs[0], url);
      var rest := AllFound(hrefs[1..], url);
      SeqAssoc(acc, f, rest);
      if Skipped(hrefs[0]) {
        assert f == [];
        assert acc + f == acc;
        ScanTakes(acc, hrefs[1..], url, cap);
      } else if |acc + f| >= cap {
        assert |acc + f| == cap;
        assert (acc + f + rest)[..cap] == acc + f;
      } else {
        ScanTakes(acc + f, hrefs[1..], url, cap);
      }
    }
  }

  /** For a positive cap the scan is exactly the first cap links of the page. */
  lemma ScanIsTake(hrefs: seq<string>, url: string, cap: nat)
    requires cap >= 1
    ensures Scan([], hrefs, url, cap) == Take(AllFound(hrefs, url), cap)
  {
    ScanTakes([], hrefs, url, cap);
    assert [] + AllFound(hrefs, url) == AllFound(hrefs, url);
  }

  /** Every scanned link was already in the list or is yielded by some anchor. */
  lemma {:induction false} ScanFrom(acc: seq<string>, hrefs: seq<string>, url: string, cap: nat, x: string)
    requires x in Scan(acc, hrefs, url, cap)
    ensures x in acc || x in AllFound(hrefs, url)
    decreases |hrefs|
  {
    if hrefs != [] {
      var f := Found(hrefs[0], url);
      if Skipped(hrefs[0]) {
        ScanFrom(acc, hrefs[1..], url, cap, x);
      } else if |acc + f| < cap {
        ScanFrom(acc + f, hrefs[1..], url, cap, x);
      }
    }
  }

  /** A resolved link ends with the href it came from. */
  lemma ResolveKeepsHref(href: string, url: string)
    requires Resolve(href, url).Some?
    ensures var l := Resolve(href, url).value; |href| <= |l| && l[|l| - |href|..] == href
  {
    if !("http" <= href) {
      var o := Origin(url);
      assert (o + href)[|o|..] == href;
    }
  }

  /** Every link an anchor yields is the resolution of a qualifying href. */
  lemma {:induction false} AllFoundFrom(hrefs: seq<string>, url: string, x: string)
    requires x in AllFound(hrefs, url)
    ensures exists k :: 0 <= k < |hrefs| && Qualifies(hrefs[k]) && Resolve(hrefs[k], url) == Some(x)
    decreases |hrefs|
  {
    if x in Found(hrefs[0], url) {
      assert Qualifies(hrefs[0]) && Resolve(hrefs[0], url) == Some(x);
    } else {
      AllFoundFrom(hrefs[1..], url, x);
      var k :| 0 <= k < |hrefs[1..]| && Qualifies(hrefs[1..][k]) && Resolve(hrefs[1..][k], url) == Some(x);
      assert hrefs[1..][k] == hrefs[k + 1];
    }
  }

  // ---- what discovery promises ----


  /** The origin is a prefix of the page url and consists of its first three '/'-pieces. */
  lemma OriginOf(url: string)
    ensures Origin(url) <= url
    ensures SplitOn(Origin(url), '/') == Take(SplitOn(url, '/'), 3)
  {
    var ps := SplitOn(url, '/');
    JoinSplitOn(url, '/');
    JoinTakePrefix("/", ps, if |ps| <= 3 then |ps| else 3);
    assert ps[..|ps|] == ps;
    var t := Take(ps, 3);
    assert forall k :: 0 <= k < |t| ==> t[k] == ps[k];
    SplitOnJoin(t, '/');
  }

  /** The discovered links are distinct, at most 3 * max, in the order of their
      first appearance on the page, and each resolves a qualifying href. */
  lemma DiscoveredShape(hrefs: seq<string>, url: string, max: nat, offset: nat)
    ensures var d := Discovered(hrefs, url, max, offset);
      NoDup(d) && |d| <= max * 3
      && (forall x :: x in d ==> x in Scan([], hrefs, url, ScanCap(max, offset)))
  {
    var s := Scan([], hrefs, url, ScanCap(max, offset));
    var u := Distinct(s);
    var d := Discovered(hrefs, url, max, offset);
    DistinctElements(s);
    SliceNoDup(u, offset, offset + max * 3);
    forall x | x in d ensures x in s {
      var i :| 0 <= i < |d| && d[i] == x;
      assert u[offset + i] in u;
    }
  }

  /** The window keeps the scan's first-seen order. */
  lemma DiscoveredOrder(hrefs: seq<string>, url: string, max: nat, offset: nat, i: nat, j: nat)
    requires i < j < |Discovered(hrefs, url, max, offset)|
    ensures var s := Scan([], hrefs, url, ScanCap(max, offset));
      var d := Discovered(hrefs, url, max, offset);
      d[i] in s && d[j] in s && FirstIndex(s, d[i]) < FirstIndex(s, d[j])
  {
    SliceFirstSeen(Scan([], hrefs, url, ScanCap(max, offset)), offset, offset + max * 3, i, j);
  }

  /** Each discovered link is a qualifying href that starts with "http", or a
      qualifying href that starts with "/" appended to the page's origin. */
  lemma LinkProvenance(hrefs: seq<string>, url: string, max: nat, offset: nat, x: string)
    requires x in Discovered(hrefs, url, max, offset)
    ensures exists k :: (0 <= k < |hrefs| && Qualifies(hrefs[k])
      && (("http" <= hrefs[k] && x == hrefs[k])
          || (!("http" <= hrefs[k]) && "/" <= hrefs[k] && x == Origin(url) + hrefs[k])))
  {
    DiscoveredShape(hrefs, url, max, offset);
    ScanFrom([], hrefs, url, ScanCap(max, offset), x);
    AllFoundFrom(hrefs, url, x);
  }

  /** Every discovered link, lower-cased, mentions a positive marker. */
  lemma LinkMentionsPositive(hrefs: seq<string>, url: string, max: nat, offset: nat, x: string)
    requires x in Discovered(hrefs, url, max, offset)
    ensures Mentions(Lower(x), Positive)
  {
    LinkProvenance(hrefs, url, max, offset, x);
    var k :| 0 <= k < |hrefs| && Qualifies(hrefs[k])
      && (("http" <= hrefs[k] && x == hrefs[k])
          || (!("http" <= hrefs[k]) && "/" <= hrefs[k] && x == Origin(url) + hrefs[k]));
    var h := hrefs[k];
    if x != h {
      var m :| 0 <= m < |Positive| && Contains(Lower(h), Positive[m]);
      LowerAppend(Origin(url), h);
      ContainsAfter(Lower(Origin(url)), Lower(h), Positive[m]);
    }
  }

  /** The window is a run of the page's deduplicated links: its i-th link is
      the (offset + i)-th distinct link the anchors yield. */
  lemma WindowIndex(hrefs: seq<string>, url: string, max: nat, offset: nat)
    requires max >= 1
    ensures forall i :: 0 <= i < |Discovered(hrefs, url, max, offset)| ==>
      offset + i < |Distinct(AllFound(hrefs, url))| &&
      Discovered(hrefs, url, max, offset)[i] == Distinct(AllFound(hrefs, url))[offset + i]
  {
    var all := AllFound(hrefs, url);
    var cap := ScanCap(max, offset);
    var d := Discovered(hrefs, url, max, offset);
    var t := Distinct(Take(all, cap));
    ScanIsTake(hrefs, url, cap);
    DistinctPrefix(Take(all, cap), all);
    forall i | 0 <= i < |d|
      ensures offset + i < |Distinct(all)| && d[i] == Distinct(all)[offset + i]
    {
      assert offset + i < |t| && d[i] == t[offset + i];
    }
  }

  /** WindowIndex as one equation: a non-empty window is the slice of the
      distinct links starting at the offset. */
  lemma WindowSlice(hrefs: seq<string>, url: string, max: nat, offset: nat)
    requires max >= 1
    ensures RunAt(Discovered(hrefs, url, max, offset), Distinct(AllFound(hrefs, url)), offset)
  {
    var all := AllFound(hrefs, url);
    var cap := ScanCap(max, offset);
    var t := Distinct(Take(all, cap));
    ScanIsTake(hrefs, url, cap);
    assert RunAt(Discovered(hrefs, url, max, offset), t, offset);
    DistinctPrefix(Take(all, cap), all);
    RunAtPrefix(Discovered(hrefs, url, max, offset), t, Distinct(all), offset);
  }

  /** A window taken e links further on than another holds none of the other's
      first e links, and carries on with the other's remaining links: one of
      the two runs is a prefix of the other. */
  lemma WindowsResume(hrefs: seq<string>, url: string, m1: nat, o: nat, m2: nat, e: nat)
    requires m1 >= 1 && m2 >= 1 && e <= |Discovered(hrefs, url, m1, o)|
    ensures CarriesOn(Discovered(hrefs, url, m1, o), e, Discovered(hrefs, url, m2, o + e))
  {
    var all := AllFound(hrefs, url);
    WindowSlice(hrefs, url, m1, o);
    WindowSlice(hrefs, url, m2, o + e);
    DistinctElements(all);
    RunsFollow(Distinct(all), Discovered(hrefs, url, m1, o), o, e, Discovered(hrefs, url, m2, o + e));
  }

  /** Two windows whose index ranges do not overlap share no link. */
  lemma WindowsDisjoint(hrefs: seq<string>, url: string, m1: nat, o1: nat, m2: nat, o2: nat)
    requires m1 >= 1 && m2 >= 1 && o1 + m1 * 3 <= o2
    ensures forall x :: x in Discovered(hrefs, url, m1, o1) ==> x !in Discovered(hrefs, url, m2, o2)
  {
    var u := Distinct(AllFound(hrefs, url));
    var d1 := Discovered(hrefs, url, m1, o1);
    var d2 := Discovered(hrefs, url, m2, o2);
    WindowIndex(hrefs, url, m1, o1);
    WindowIndex(hrefs, url, m2, o2);
    DistinctElements(AllFound(hrefs, url));
    forall x | x in d1 ensures x !in d2 {
      var i :| 0 <= i < |d1| && d1[i] == x;
    }
  }

  // ---- what the crawl promises ----

  /** An extractor that labels each record with the link it came from. */
  ghost predicate KeepsUrl(extract: string -> Option<Articles.Article>) {
    forall l :: extract(l).Some? ==> extract(l).value.url == l
  }

  /** Each record is the extractor's answer for a link, and the records follow
      the order of their links. */
  ghost predicate Follows(s: seq<Articles.Article>, links: seq<string>, extract: string -> Option<Articles.Article>) {
    (forall i :: 0 <= i < |s| ==> s[i].url in links && extract(s[i].url) == Some(s[i]))
    && (forall i, j :: 0 <= i < j < |s| ==> FirstIndex(links, s[i].url) < FirstIndex(links, s[j].url))
  }

  /** The records come from distinct links, one each, in link order, and each
      is what the extractor returned for its link. */
  lemma {:induction false} SuccessesFollow(links: seq<string>, extract: string -> Option<Articles.Article>)
    requires NoDup(links) && KeepsUrl(extract)
    ensures Follows(Successes(links, extract), links, extract)
  {
    if links != [] {
      var p := links[..|links| - 1];
      var l := links[|links| - 1];
      var sp := Successes(p, extract);
      var s := Successes(links, extract);
      SuccessesFollow(p, extract);
      assert l !in p by {
        forall k | 0 <= k < |p| ensures p[k] != l {
          assert p[k] == links[k];
        }
      }
      forall x | x in p ensures x in links && FirstIndex(links, x) == FirstIndex(p, x) < |p| {
      }
      assert FirstIndex(links, l) == |p|;
      if extract(l).Some? {
        var a := extract(l).value;
        assert s == sp + [a];
        assert a.url == l;
        forall i | 0 <= i < |s| ensures s[i].url in links && extract(s[i].url) == Some(s[i]) {
          if i < |sp| {
            assert s[i] == sp[i];
            assert sp[i].url in p;
          }
        }
        forall i, j | 0 <= i < j < |s| ensures FirstIndex(links, s[i].url) < FirstIndex(links, s[j].url) {
          assert s[i] == sp[i];
          assert sp[i].url in p;
          if j < |sp| {
            assert s[j] == sp[j];
            assert sp[j].url in p;
            assert FirstIndex(p, sp[i].url) < FirstIndex(p, sp[j].url);
          }
        }
      } else {
        assert s == sp;
        forall i | 0 <= i < |s| ensures s[i].url in links {
          assert sp[i].url in p;
        }
        forall i, j | 0 <= i < j < |s| ensures FirstIndex(links, s[i].url) < FirstIndex(links, s[j].url) {
          assert sp[i].url in p && sp[j].url in p;
          assert FirstIndex(p, sp[i].url) < FirstIndex(p, sp[j].url);
        }
      }
    }
  }

  /** When every link yields a record, the records are one per link, in order. */
  lemma {:induction false} SuccessesAll(links: seq<string>, extract: string -> Option<Articles.Article>)
    requires forall l :: l in links ==> extract(l).Some?
    ensures |Successes(links, extract)| == |links|
    ensures forall i :: 0 <= i < |links| ==> Successes(links, extract)[i] == extract(links[i]).value
  {
    if links != [] {
      var p := links[..|links| - 1];
      assert forall l :: l in p ==> l in links;
      SuccessesAll(p, extract);
    }
  }

  /** When every discovered link yields a page and there are at least max of
      them, the crawl returns max records, the i-th from the i-th link. */
  lemma CrawlAllSucceed(url: string, hrefs: seq<string>, fetch: string -> Option<Articles.Page>,
                        sentTokenize: string -> seq<string>, max: nat, offset: nat)
    requires max <= |Discovered(hrefs, url, max, offset)|
    requires forall l :: l in Discovered(hrefs, url, max, offset) ==> Extractor(fetch, sentTokenize)(l).Some?
    ensures |CrawlOf(url, Some(hrefs), fetch, sentTokenize, max, offset)| == max
    ensures forall i :: 0 <= i < max ==>
      CrawlOf(url, Some(hrefs), fetch, sentTokenize, max, offset)[i] == Extractor(fetch, sentTokenize)(Discovered(hrefs, url, max, offset)[i]).value
      && CrawlOf(url, Some(hrefs), fetch, sentTokenize, max, offset)[i].url == Discovered(hrefs, url, max, offset)[i]
  {
    var d := Discovered(hrefs, url, max, offset);
    var x := Extractor(fetch, sentTokenize);
    SuccessesAll(d, x);
    ExtractorKeepsUrl(fetch, sentTokenize);
  }

  /** A prefix of records that follow their links follows them too. */
  lemma TakeFollows(s: seq<Articles.Article>, links: seq<string>, extract: string -> Option<Articles.Article>, n: nat)
    requires Follows(s, links, extract)
    ensures Follows(Take(s, n), links, extract)
  {
    var t := Take(s, n);
    assert forall i :: 0 <= i < |t| ==> t[i] == s[i];
  }

  /** fetch_article labels its record with the url it was given. */
  lemma ExtractorKeepsUrl(fetch: string -> Option<Articles.Page>, sentTokenize: string -> seq<string>)
    ensures KeepsUrl(Extractor(fetch, sentTokenize))
  {
    forall l ensures Extractor(fetch, sentTokenize)(l).Some? ==> Extractor(fetch, sentTokenize)(l).value.url == l {
      assert Extractor(fetch, sentTokenize)(l) == Articles.ArticleOf(l, fetch(l), sentTokenize);
    }
  }

  /** fetch_category returns at most max records, from distinct discovered
      links, in link order, each the extractor's record for its link. */
  lemma CrawlShape(url: string, hrefs: seq<string>, fetch: string -> Option<Articles.Page>,
                   sentTokenize: string -> seq<string>, max: nat, offset: nat)
    ensures |CrawlOf(url, Some(hrefs), fetch, sentTokenize, max, offset)| <= max
    ensures Follows(CrawlOf(url, Some(hrefs), fetch, sentTokenize, max, offset),
                    Discovered(hrefs, url, max, offset), Extractor(fetch, sentTokenize))
    ensures forall i, j :: 0 <= i < j < |CrawlOf(url, Some(hrefs), fetch, sentTokenize, max, offset)| ==>
      CrawlOf(url, Some(hrefs), fetch, sentTokenize, max, offset)[i].url
      != CrawlOf(url, Some(hrefs), fetch, sentTokenize, max, offset)[j].url
  {
    var links := Discovered(hrefs, url, max, offset);
    var extract := Extractor(fetch, sentTokenize);
    DiscoveredShape(hrefs, url, max, offset);
    ExtractorKeepsUrl(fetch, sentTokenize);
    SuccessesFollow(links, extract);
    TakeFollows(Successes(links, extract), links, extract, max);
  }
}
