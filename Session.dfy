/** The article list the app keeps between interactions, and the buttons
    that replace it, clear it or extend it. */
module Session {
  import opened Wrappers
  import Articles
  import Crawler
  import Seqs

  /** The urls of a list of records, in order. */
  function Urls(s: seq<Articles.Article>): (r: seq<string>)
    ensures |r| == |s| && forall i :: 0 <= i < |s| ==> r[i] == s[i].url
    ensures Seqs.NoDup(r) <==> DistinctUrls(s)
  {
    seq(|s|, i requires 0 <= i < |s| => s[i].url)
  }

  predicate DistinctUrls(s: seq<Articles.Article>) {
    forall i, j :: 0 <= i < j < |s| ==> s[i].url != s[j].url
  }

  /** The load-more merge: each incoming record is appended unless a record
      with its url is already listed. */
  function MergeByUrl(current: seq<Articles.Article>, incoming: seq<Articles.Article>): (r: seq<Articles.Article>)
    ensures current <= r && |r| <= |current| + |incoming|
  {
    if incoming == [] then current
    else
      var m := MergeByUrl(current, incoming[..|incoming| - 1]);
      var a := incoming[|incoming| - 1];
      if a.url in Urls(m) then m else m + [a]
  }

  /** Records fetched when a source is chosen. */
  const FirstBatch: nat := 15

  /** Records asked for, and the offset step, of "Load 10 More". */
  const MoreBatch: nat := 10

  /** The session's article list and crawl offset. */
  class Reader {
    var articles: seq<Articles.Article>
    var offset: nat

    ghost predicate Valid()
      reads this
    {
      DistinctUrls(articles)
    }

    /** A new session: no articles, offset 0. */
    constructor ()
      ensures articles == [] && offset == 0 && Valid()
    {
      articles := [];
      offset := 0;
    }

    /** Choosing a source: its first 15 records replace the list. */
    method SelectSource(url: string, listing: Option<seq<string>>, fetch: string -> Option<Articles.Page>,
                        sentTokenize: string -> seq<string>)
      modifies this
      ensures articles == Crawler.CrawlOf(url, listing, fetch, sentTokenize, FirstBatch, 0)
      ensures offset == old(offset) && Valid()
    {
      var examined;
      articles, examined := Crawler.Crawl(url, listing, fetch, sentTokenize, FirstBatch, 0);
      CrawlDistinct(url, listing, fetch, sentTokenize, FirstBatch, 0);
    }

    /** Refresh, Home and choosing a category: the list is emptied and the offset reset. */
    method Refresh()
      modifies this
      ensures articles == [] && offset == 0 && Valid()
    {
      offset := 0;
      articles := [];
    }

    /** "Load 10 More": the offset advances by 10, ten records are crawled
        from there, and those with a new url are appended. */
    method LoadMore(url: string, listing: Option<seq<string>>, fetch: string -> Option<Articles.Page>,
                    sentTokenize: string -> seq<string>)
      requires Valid()
      modifies this
      ensures offset == old(offset) + MoreBatch
      ensures articles == MergeByUrl(old(articles),
        Crawler.CrawlOf(url, listing, fetch, sentTokenize, MoreBatch, old(offset) + MoreBatch))
      ensures Valid()
    {
      offset := offset + MoreBatch;
      var incoming, examined := Crawler.Crawl(url, listing, fetch, sentTokenize, MoreBatch, offset);
      Append(incoming);
    }

    /** Choosing a source, with the offset set to the number of links the
        crawl looked at, so that the next load resumes right after them. */
    method SelectSourceResume(url: string, listing: Option<seq<string>>, fetch: string -> Option<Articles.Page>,
                              sentTokenize: string -> seq<string>)
      modifies this
      ensures articles == Crawler.CrawlOf(url, listing, fetch, sentTokenize, FirstBatch, 0)
      ensures offset == Crawler.CrawlExamined(url, listing, fetch, sentTokenize, FirstBatch, 0)
      ensures Valid()
    {
      var examined;
      articles, examined := Crawler.Crawl(url, listing, fetch, sentTokenize, FirstBatch, 0);
      offset := examined;
      CrawlDistinct(url, listing, fetch, sentTokenize, FirstBatch, 0);
    }

    /** "Load 10 More" resuming at the first link no earlier crawl looked at:
        ten records are crawled from the offset, those with a new url are
        appended, and the offset moves past the links this crawl looked at. */
    method LoadMoreResume(url: string, listing: Option<seq<string>>, fetch: string -> Option<Articles.Page>,
                          sentTokenize: string -> seq<string>)
      requires Valid()
      modifies this
      ensures articles == MergeByUrl(old(articles),
        Crawler.CrawlOf(url, listing, fetch, sentTokenize, MoreBatch, old(offset)))
      ensures offset == old(offset) + Crawler.CrawlExamined(url, listing, fetch, sentTokenize, MoreBatch, old(offset))
      ensures Valid()
    {
      var incoming, examined := Crawler.Crawl(url, listing, fetch, sentTokenize, MoreBatch, offset);
      Append(incoming);
      offset := offset + examined;
    }

    /** The merge loop: each incoming record whose url is not listed yet is appended. */
    method Append(incoming: seq<Articles.Article>)
      requires Valid()
      modifies this
      ensures articles == MergeByUrl(old(articles), incoming)
      ensures offset == old(offset) && Valid()
    {
      for k := 0 to |incoming|
        invariant offset == old(offset)
        invariant articles == MergeByUrl(old(articles), incoming[..k])
      {
        var a := incoming[k];
        assert incoming[..k + 1][..k] == incoming[..k];
        if a.url !in Urls(articles) {
          articles := articles + [a];
        }
      }
      assert incoming[..|incoming|] == incoming;
      MergeKeepsDistinct(old(articles), incoming);
    }
  }

  /** As written, the first "Load 10 More" after a source is chosen reads the
      links [10, 40): when the first load was handed a full window of 45
      links, every link the load-more is handed was handed to the first load. */
  lemma LoadMoreRepeatsLinks(hrefs: seq<string>, url: string)
    requires |Crawler.Discovered(hrefs, url, FirstBatch, 0)| == FirstBatch * 3
    ensures |Crawler.Discovered(hrefs, url, MoreBatch, MoreBatch)| == MoreBatch * 3
    ensures forall i :: 0 <= i < |Crawler.Discovered(hrefs, url, MoreBatch, MoreBatch)| ==>
      Crawler.Discovered(hrefs, url, MoreBatch, MoreBatch)[i] == Crawler.Discovered(hrefs, url, FirstBatch, 0)[MoreBatch + i]
  {
    var all := Crawler.AllFound(hrefs, url);
    var first := Crawler.Discovered(hrefs, url, FirstBatch, 0);
    var more := Crawler.Discovered(hrefs, url, MoreBatch, MoreBatch);
    Crawler.ScanIsTake(hrefs, url, Crawler.ScanCap(FirstBatch, 0));
    Crawler.ScanIsTake(hrefs, url, Crawler.ScanCap(MoreBatch, MoreBatch));
    assert Seqs.Take(all, 60) <= Seqs.Take(all, 80);
    Seqs.DistinctPrefix(Seqs.Take(all, 60), Seqs.Take(all, 80));
    Crawler.WindowIndex(hrefs, url, FirstBatch, 0);
    Crawler.WindowIndex(hrefs, url, MoreBatch, MoreBatch);
  }

  /** As written, with a listing that yields at least 45 distinct links and
      a page for each of them, the first "Load 10 More" fetches again the five
      links the first load fetched last: its first five records are the first
      load's records 10 to 14, and only its last five are new to the list. */
  lemma LoadMoreRefetches(hrefs: seq<string>, url: string, fetch: string -> Option<Articles.Page>,
                          sentTokenize: string -> seq<string>)
    requires |Crawler.Discovered(hrefs, url, FirstBatch, 0)| == FirstBatch * 3
    requires forall l :: l in Crawler.Discovered(hrefs, url, FirstBatch, 0) ==>
      Crawler.Extractor(fetch, sentTokenize)(l).Some?
    ensures var first := Crawler.CrawlOf(url, Some(hrefs), fetch, sentTokenize, FirstBatch, 0);
      var more := Crawler.CrawlOf(url, Some(hrefs), fetch, sentTokenize, MoreBatch, MoreBatch);
      |first| == FirstBatch && |more| == MoreBatch
      && (forall i :: 0 <= i < FirstBatch - MoreBatch ==> more[i] == first[MoreBatch + i])
      && MergeByUrl(first, more) == first + more[FirstBatch - MoreBatch..]
  {
    var d1 := Crawler.Discovered(hrefs, url, FirstBatch, 0);
    var first := Crawler.CrawlOf(url, Some(hrefs), fetch, sentTokenize, FirstBatch, 0);
    var more := Crawler.CrawlOf(url, Some(hrefs), fetch, sentTokenize, MoreBatch, MoreBatch);
    LoadMoreRecords(hrefs, url, fetch, sentTokenize);
    Crawler.DiscoveredShape(hrefs, url, FirstBatch, 0);
    MergeOverlap(first, more, d1, MoreBatch);
  }

  /** The records of the first load and of the first load-more, under the
      conditions of LoadMoreRefetches: one per link, the load-more's starting
      at link 10 of the first load's window. */
  lemma LoadMoreRecords(hrefs: seq<string>, url: string, fetch: string -> Option<Articles.Page>,
                        sentTokenize: string -> seq<string>)
    requires |Crawler.Discovered(hrefs, url, FirstBatch, 0)| == FirstBatch * 3
    requires forall l :: l in Crawler.Discovered(hrefs, url, FirstBatch, 0) ==>
      Crawler.Extractor(fetch, sentTokenize)(l).Some?
    ensures var d1 := Crawler.Discovered(hrefs, url, FirstBatch, 0);
      var first := Crawler.CrawlOf(url, Some(hrefs), fetch, sentTokenize, FirstBatch, 0);
      var more := Crawler.CrawlOf(url, Some(hrefs), fetch, sentTokenize, MoreBatch, MoreBatch);
      |first| == FirstBatch && |more| == MoreBatch
      && (forall i :: 0 <= i < |first| ==> first[i].url == d1[i])
      && (forall i :: 0 <= i < |more| ==> more[i].url == d1[MoreBatch + i])
      && (forall i :: 0 <= i < |more| && MoreBatch + i < |first| ==> more[i] == first[MoreBatch + i])
  {
    var x := Crawler.Extractor(fetch, sentTokenize);
    var d1 := Crawler.Discovered(hrefs, url, FirstBatch, 0);
    var d2 := Crawler.Discovered(hrefs, url, MoreBatch, MoreBatch);
    LoadMoreRepeatsLinks(hrefs, url);
    forall l | l in d2 ensures x(l).Some? {
      var j :| 0 <= j < |d2| && d2[j] == l;
      assert d1[MoreBatch + j] in d1;
    }
    Crawler.CrawlAllSucceed(url, hrefs, fetch, sentTokenize, FirstBatch, 0);
    Crawler.CrawlAllSucceed(url, hrefs, fetch, sentTokenize, MoreBatch, MoreBatch);
  }


  /** Merging a batch whose records repeat the tail of the list from position
      s and then go on with links the list does not hold appends exactly the
      records past the overlap. */
  lemma MergeOverlap(first: seq<Articles.Article>, more: seq<Articles.Article>, d: seq<string>, s: nat)
    requires Seqs.NoDup(d) && s <= |first| <= s + |more| && s + |more| <= |d|
    requires forall i :: 0 <= i < |first| ==> first[i].url == d[i]
    requires forall i :: 0 <= i < |more| ==> more[i].url == d[s + i]
    requires forall i :: 0 <= i < |more| && s + i < |first| ==> more[i] == first[s + i]
    ensures MergeByUrl(first, more) == first + more[|first| - s..]
  {
    var known := more[..|first| - s];
    var novel := more[|first| - s..];
    forall i | 0 <= i < |known| ensures known[i].url in Urls(first) {
      assert Urls(first)[s + i] == known[i].url;
    }
    forall i | 0 <= i < |novel| ensures novel[i].url !in Urls(first) {
      forall k | 0 <= k < |first| ensures Urls(first)[k] != novel[i].url {
        assert Urls(first)[k] == d[k] && novel[i].url == d[|first| + i];
      }
    }
    assert DistinctUrls(novel) by {
      forall i, j | 0 <= i < j < |novel| ensures novel[i].url != novel[j].url {
        assert novel[i].url == d[|first| + i] && novel[j].url == d[|first| + j];
      }
    }
    assert more == known + novel;
    MergeAppend(first, known, novel);
    MergeKnown(first, known);
    MergeFresh(first, novel);
  }


  /** With the resuming offset no link is looked at twice and none is passed
      over: the next window holds none of the links the previous crawl looked
      at, and it starts with the links of the previous window that crawl did
      not look at, in their order (one of the two is a prefix of the other). */
  lemma ResumeNoRefetch(hrefs: seq<string>, url: string, m1: nat, o: nat, m2: nat,
                        extract: string -> Option<Articles.Article>)
    requires m1 >= 1 && m2 >= 1
    ensures var d1 := Crawler.Discovered(hrefs, url, m1, o);
      var e := Crawler.Examined(d1, extract, m1);
      var d2 := Crawler.Discovered(hrefs, url, m2, o + e);
      Seqs.CarriesOn(d1, e, d2)
  {
    var d1 := Crawler.Discovered(hrefs, url, m1, o);
    var e := Crawler.Examined(d1, extract, m1);
    Crawler.WindowsResume(hrefs, url, m1, o, m2, e);
  }



  /** A crawl never returns two records with the same url. */
  lemma CrawlDistinct(url: string, listing: Option<seq<string>>, fetch: string -> Option<Articles.Page>,
                      sentTokenize: string -> seq<string>, max: nat, offset: nat)
    ensures DistinctUrls(Crawler.CrawlOf(url, listing, fetch, sentTokenize, max, offset))
  {
    if listing.Some? {
      Crawler.CrawlShape(url, listing.value, fetch, sentTokenize, max, offset);
    }
  }

  // ---- what the merge promises ----

  /** The merge keeps urls distinct. */
  lemma {:induction false} MergeKeepsDistinct(current: seq<Articles.Article>, incoming: seq<Articles.Article>)
    requires DistinctUrls(current)
    ensures DistinctUrls(MergeByUrl(current, incoming))
  {
    if incoming != [] {
      var m := MergeByUrl(current, incoming[..|incoming| - 1]);
      var a := incoming[|incoming| - 1];
      MergeKeepsDistinct(current, incoming[..|incoming| - 1]);
      if a.url !in Urls(m) {
        var r := m + [a];
        forall i, j | 0 <= i < j < |r| ensures r[i].url != r[j].url {
          if j == |m| {
            assert Urls(m)[i] == m[i].url;
          }
        }
      }
    }
  }

  /** After the merge every url listed before or incoming is listed, and nothing else is. */
  lemma {:induction false} MergeUrls(current: seq<Articles.Article>, incoming: seq<Articles.Article>)
    ensures forall u :: u in Urls(MergeByUrl(current, incoming)) <==> u in Urls(current) || u in Urls(incoming)
  {
    if incoming != [] {
      var pre := incoming[..|incoming| - 1];
      var m := MergeByUrl(current, pre);
      var a := incoming[|incoming| - 1];
      MergeUrls(current, pre);
      assert Urls(incoming) == Urls(pre) + [a.url];
      if a.url !in Urls(m) {
        assert Urls(m + [a]) == Urls(m) + [a.url];
      }
    }
  }

  /** Merging two batches one after the other is merging them together. */
  lemma {:induction false} MergeAppend(current: seq<Articles.Article>, a: seq<Articles.Article>, b: seq<Articles.Article>)
    ensures MergeByUrl(current, a + b) == MergeByUrl(MergeByUrl(current, a), b)
    decreases |b|
  {
    if b == [] {
      assert a + b == a;
    } else {
      var b' := b[..|b| - 1];
      MergeAppend(current, a, b');
      assert (a + b)[..|a + b| - 1] == a + b';
      assert (a + b)[|a + b| - 1] == b[|b| - 1];
    }
  }

  /** Records whose urls are all listed already add nothing. */
  lemma {:induction false} MergeKnown(current: seq<Articles.Article>, incoming: seq<Articles.Article>)
    requires forall i :: 0 <= i < |incoming| ==> incoming[i].url in Urls(current)
    ensures MergeByUrl(current, incoming) == current
  {
    if incoming != [] {
      MergeKnown(current, incoming[..|incoming| - 1]);
    }
  }

  /** Records with distinct urls none of which is listed are all appended, in order. */
  lemma {:induction false} MergeFresh(current: seq<Articles.Article>, incoming: seq<Articles.Article>)
    requires forall i :: 0 <= i < |incoming| ==> incoming[i].url !in Urls(current)
    requires DistinctUrls(incoming)
    ensures MergeByUrl(current, incoming) == current + incoming
  {
    if incoming != [] {
      var pre := incoming[..|incoming| - 1];
      var a := incoming[|incoming| - 1];
      assert forall k :: 0 <= k < |pre| ==> pre[k] == incoming[k];
      MergeFresh(current, pre);
      assert a.url !in Urls(pre) by {
        forall k | 0 <= k < |pre| ensures Urls(pre)[k] != a.url {
          assert pre[k] == incoming[k];
        }
      }
      UrlsAppend(current, pre);
      Seqs.SplitLast(incoming);
      assert current + incoming == (current + pre) + [a];
    }
  }

  /** The urls of two lists one after the other. */
  lemma UrlsAppend(x: seq<Articles.Article>, y: seq<Articles.Article>)
    ensures Urls(x + y) == Urls(x) + Urls(y)
  {
    assert forall k :: 0 <= k < |x + y| ==> Urls(x + y)[k] == (Urls(x) + Urls(y))[k];
  }

  /** Every record the merge appends is an incoming record. */
  lemma {:induction false} MergeAddsIncoming(current: seq<Articles.Article>, incoming: seq<Articles.Article>)
    ensures forall k :: |current| <= k < |MergeByUrl(current, incoming)| ==> MergeByUrl(current, incoming)[k] in incoming
  {
    if incoming != [] {
      var pre := incoming[..|incoming| - 1];
      MergeAddsIncoming(current, pre);
      var m := MergeByUrl(current, pre);
      forall k | |current| <= k < |m| ensures m[k] in incoming {
        assert m[k] in pre;
      }
    }
  }
}
