/** get_keywords: topic tags from word and word-pair frequencies. */
module Keywords {
  import opened Text
  import opened Seqs

  /** A candidate phrase and its score (or a token and its count). */
  datatype Scored = Scored(phrase: string, score: int)

  /** Words added to NLTK's English stopword list: frequent in news, not informative. */
  const ExtraStopwords: set<string> :=
    {"said", "new", "year", "people", "time", "day", "also", "would", "could", "report", "news"}

  /** The test a token passes to be counted: at least four letters,
      alphabetic, not a stopword. */
  predicate Kept(w: string, stops: set<string>) {
    |w| >= 4 && IsAlpha(w) && w !in stops
  }

  /** The tokens kept for counting, in their order, each as often as it occurs. */
  function Filtered(words: seq<string>, stops: set<string>): (r: seq<string>)
    ensures forall w :: w in r <==> w in words && Kept(w, stops)
  {
    if words == [] then []
    else
      var w := words[0];
      (if Kept(w, stops) then [w] else []) + Filtered(words[1..], stops)
  }

  /** Each kept token occurs in the filtered list exactly as often as in the
      input; every other token not at all. */
  lemma {:induction false} FilteredCounts(words: seq<string>, stops: set<string>, w: string)
    ensures multiset(Filtered(words, stops))[w] == if Kept(w, stops) then multiset(words)[w] else 0
  {
    if words != [] {
      FilteredCounts(words[1..], stops, w);
      assert words == [words[0]] + words[1..];
    }
  }

  /** Filtering works token by token, so it keeps the tokens' order. */
  lemma {:induction false} FilteredAppend(a: seq<string>, b: seq<string>, stops: set<string>)
    ensures Filtered(a + b, stops) == Filtered(a, stops) + Filtered(b, stops)
  {
    if a == [] {
      assert a + b == b;
    } else {
      var h := if Kept(a[0], stops) then [a[0]] else [];
      FilteredAppend(a[1..], b, stops);
      assert (a + b)[1..] == a[1..] + b;
      assert Filtered(a + b, stops) == h + Filtered(a[1..] + b, stops);
      assert Filtered(a, stops) == h + Filtered(a[1..], stops);
      SeqAssoc(h, Filtered(a[1..], stops), Filtered(b, stops));
    }
  }

  /** ' '.join(b) for each adjacent pair b of tokens (nltk.util.ngrams(tokens, 2)). */
  function Bigrams(ws: seq<string>): (r: seq<string>)
    ensures |ws| < 2 ==> r == []
    ensures |ws| >= 2 ==> |r| == |ws| - 1
    ensures forall i :: 0 <= i < |r| ==> r[i] == ws[i] + " " + ws[i + 1]
  {
    if |ws| < 2 then [] else seq(|ws| - 1, i requires 0 <= i < |ws| - 1 => ws[i] + " " + ws[i + 1])
  }

  /** Counter(xs).items(): each distinct element once, with its count, in
      first-seen order. */
  function Tally(xs: seq<string>): (r: seq<Scored>)
    ensures forall i :: 0 <= i < |r| ==> r[i].phrase in xs && r[i].score == multiset(xs)[r[i].phrase]
    ensures forall i, j :: 0 <= i < j < |r| ==> r[i].phrase != r[j].phrase
    ensures forall x :: x in xs ==> Scored(x, multiset(xs)[x]) in r
  {
    var d := Distinct(xs);
    DistinctElements(xs);
    var r := seq(|d|, i requires 0 <= i < |d| => Scored(d[i], multiset(xs)[d[i]]));
    forall x | x in xs ensures Scored(x, multiset(xs)[x]) in r {
      var i :| 0 <= i < |d| && d[i] == x;
      assert r[i] == Scored(x, multiset(xs)[x]);
    }
    r
  }

  /** Places x before the first element scoring no more than it. */
  function Insert(x: Scored, s: seq<Scored>): seq<Scored> {
    if s == [] then [x]
    else if x.score >= s[0].score then [x] + s
    else [s[0]] + Insert(x, s[1..])
  }

  /** sorted(s, key=score, reverse=True): Python's stable descending sort. */
  function SortDesc(s: seq<Scored>): seq<Scored> {
    if s == [] then [] else Insert(s[0], SortDesc(s[1..]))
  }

  predicate SortedDesc(s: seq<Scored>) {
    forall i, j :: 0 <= i < j < |s| ==> s[i].score >= s[j].score
  }

  /** The elements of s with the given score, in their order in s. */
  function WithScore(s: seq<Scored>, v: int): seq<Scored> {
    if s == [] then [] else (if s[0].score == v then [s[0]] else []) + WithScore(s[1..], v)
  }

  /** Counter(xs).most_common(k): at most k entries, each a real element of xs
      with its true count. */
  function MostCommon(xs: seq<string>, k: nat): (r: seq<Scored>)
    ensures |r| <= k
    ensures forall y :: y in r ==> y.phrase in xs && y.score == multiset(xs)[y.phrase]
  {
    var t := Tally(xs);
    SortMultiset(t);
    var r := Take(SortDesc(t), k);
    assert forall y :: y in r ==> y in multiset(SortDesc(t));
    r
  }

  /** The entries counted at least twice, renamed by `render` and scored count * weight;
      none at all exactly when no entry is counted twice. */
  function Promote(cs: seq<Scored>, weight: int, render: string -> string): (r: seq<Scored>)
    ensures |r| <= |cs|
    ensures r == [] <==> forall i :: 0 <= i < |cs| ==> cs[i].score < 2
  {
    if cs == [] then []
    else
      (if cs[0].score >= 2 then [Scored(render(cs[0].phrase), cs[0].score * weight)] else [])
      + Promote(cs[1..], weight, render)
  }

  /** ' '.join(x.capitalize() for x in b.split()) */
  function CapitalizeWords(b: string): string {
    var ws := Words(b);
    Join(" ", seq(|ws|, i requires 0 <= i < |ws| => Capitalize(ws[i])))
  }

  function UnigramCandidates(f: seq<string>, n: nat): seq<Scored> {
    Promote(MostCommon(f, n * 3), 2, Capitalize)
  }

  function BigramCandidates(f: seq<string>, n: nat): seq<Scored> {
    Promote(MostCommon(Bigrams(f), n * 2), 4, CapitalizeWords)
  }

  /** cands: unigrams first, then bigrams; at most 3n of the one and 2n of the other. */
  function Candidates(f: seq<string>, n: nat): (r: seq<Scored>)
    ensures |r| <= 5 * n
  {
    UnigramCandidates(f, n) + BigramCandidates(f, n)
  }

  /** `a in b.lower() or b.lower() in a`, case-insensitively, either way round. */
  predicate Clash(a: string, b: string) {
    Contains(Lower(b), Lower(a)) || Contains(Lower(a), Lower(b))
  }

  function LowerSet(u: seq<Scored>): set<string> {
    set j | 0 <= j < |u| :: Lower(u[j].phrase)
  }

  /** The test the dedup loop applies to candidate k against the accepted list u. */
  predicate Admits(u: seq<Scored>, k: string) {
    Lower(k) !in LowerSet(u) && forall j :: 0 <= j < |u| ==> !Clash(k, u[j].phrase)
  }

  /** The list `unique` the dedup loop builds from the candidates: never
      longer than the candidates, and the first candidate is always accepted. */
  function Dedup(c: seq<Scored>): (r: seq<Scored>)
    ensures |r| <= |c|
    ensures c != [] ==> r != [] && r[0] == c[0]
  {
    if c == [] then []
    else
      var u := Dedup(c[..|c| - 1]);
      if Admits(u, c[|c| - 1].phrase) then u + [c[|c| - 1]] else u
  }

  /** No phrase is a case-insensitive substring of another. */
  predicate Suppressed(s: seq<Scored>) {
    forall i, j :: 0 <= i < j < |s| ==> !Clash(s[i].phrase, s[j].phrase)
  }

  /** The accepted candidates, best score first. */
  function Ranked(f: seq<string>, n: nat): seq<Scored> {
    SortDesc(Dedup(Candidates(f, n)))
  }

  function Phrases(s: seq<Scored>): (r: seq<string>)
    ensures |r| == |s| && forall i :: 0 <= i < |s| ==> r[i] == s[i].phrase
  {
    seq(|s|, i requires 0 <= i < |s| => s[i].phrase)
  }

  /** get_keywords(text, n), given word_tokenize's tokens for the lower-cased
      text and NLTK's English stopword list. */
  function KeywordsOf(tokens: seq<string>, corpus: set<string>, n: nat): (r: seq<string>)
    ensures |r| <= n
  {
    var f := Filtered(tokens, corpus + ExtraStopwords);
    if f == [] then [] else Phrases(Take(Ranked(f, n), n))
  }

  /** get_keywords, with the dedup loop over `seen` and `unique` and the in-place sort. */
  method GetKeywords(text: string, wordTokenize: string -> seq<string>, corpus: set<string>, n: nat)
    returns (r: seq<string>)
    ensures r == KeywordsOf(wordTokenize(Lower(text)), corpus, n)
  {
    var words := wordTokenize(Lower(text));
    var stops := corpus + ExtraStopwords;
    var filtered := Filtered(words, stops);
    if filtered == [] {
      return [];
    }
    var cands := Candidates(filtered, n);
    var unique := DedupLoop(cands);
    unique := SortDesc(unique);
    r := Phrases(Take(unique, n));
  }

  /** The dedup loop: a candidate is accepted when its lower-cased phrase is
      not yet `seen` and it clashes with no accepted phrase. */
  method DedupLoop(cands: seq<Scored>) returns (unique: seq<Scored>)
    ensures unique == Dedup(cands)
  {
    var seen: set<string> := {};
    unique := [];
    for i := 0 to |cands|
      invariant unique == Dedup(cands[..i])
      invariant seen == LowerSet(unique)
    {
      var c := cands[i];
      var k := c.phrase;
      var kl := Lower(k);
      var clash := exists j :: 0 <= j < |unique| && Clash(k, unique[j].phrase);
      assert (kl !in seen && !clash) == Admits(unique, k);
      DedupStep(cands, i, unique);
      if kl !in seen && !clash {
        LowerSetSnoc(unique, c);
        seen := seen + {kl};
        unique := unique + [c];
      }
    }
    assert cands[..|cands|] == cands;
  }

  lemma LowerSetSnoc(u: seq<Scored>, x: Scored)
    ensures LowerSet(u + [x]) == LowerSet(u) + {Lower(x.phrase)}
  {
    var v := u + [x];
    assert forall j :: 0 <= j < |u| ==> v[j] == u[j];
    assert v[|u|] == x;
  }

  lemma DedupStep(c: seq<Scored>, i: nat, u: seq<Scored>)
    requires i < |c| && u == Dedup(c[..i])
    ensures Dedup(c[..i + 1]) == if Admits(u, c[i].phrase) then u + [c[i]] else u
  {
    assert c[..i + 1][..i] == c[..i];
  }

  // ---- sorting ----

  lemma {:induction false} InsertMultiset(x: Scored, s: seq<Scored>)
    ensures multiset(Insert(x, s)) == multiset(s) + multiset{x}
  {
    if s != [] && x.score < s[0].score {
      InsertMultiset(x, s[1..]);
      assert s == [s[0]] + s[1..];
    }
  }

  /** The sort is a permutation. */
  lemma {:induction false} SortMultiset(s: seq<Scored>)
    ensures multiset(SortDesc(s)) == multiset(s)
  {
    if s != [] {
      SortMultiset(s[1..]);
      InsertMultiset(s[0], SortDesc(s[1..]));
      assert s == [s[0]] + s[1..];
    }
  }

  lemma {:induction false} InsertSorted(x: Scored, s: seq<Scored>)
    requires SortedDesc(s)
    ensures SortedDesc(Insert(x, s))
  {
    if s != [] && x.score < s[0].score {
      var t := Insert(x, s[1..]);
      InsertSorted(x, s[1..]);
      InsertMultiset(x, s[1..]);
      forall k | 0 <= k < |t| ensures t[k].score <= s[0].score {
        assert t[k] in multiset(t);
        assert t[k] == x || t[k] in s[1..];
      }
    }
  }

  /** The sort orders by non-increasing score. */
  lemma {:induction false} SortSorted(s: seq<Scored>)
    ensures SortedDesc(SortDesc(s))
  {
    if s != [] {
      SortSorted(s[1..]);
      InsertSorted(s[0], SortDesc(s[1..]));
    }
  }

  lemma {:induction false} InsertWithScore(x: Scored, s: seq<Scored>, v: int)
    ensures WithScore(Insert(x, s), v) == (if x.score == v then [x] else []) + WithScore(s, v)
  {
    var hx := if x.score == v then [x] else [];
    if s == [] {
      assert Insert(x, s) == [x];
    } else if x.score >= s[0].score {
      assert ([x] + s)[1..] == s;
    } else {
      var h0 := if s[0].score == v then [s[0]] else [];
      var t := Insert(x, s[1..]);
      InsertWithScore(x, s[1..], v);
      assert ([s[0]] + t)[1..] == t;
      assert WithScore(Insert(x, s), v) == h0 + (hx + WithScore(s[1..], v));
      assert WithScore(s, v) == h0 + WithScore(s[1..], v);
      assert hx == [] || h0 == [];
    }
  }

  /** The sort is stable: the elements sharing a score keep their relative order. */
  lemma {:induction false} SortStable(s: seq<Scored>, v: int)
    ensures WithScore(SortDesc(s), v) == WithScore(s, v)
  {
    if s != [] {
      SortStable(s[1..], v);
      SortSorted(s[1..]);
      InsertWithScore(s[0], SortDesc(s[1..]), v);
    }
  }

  lemma {:induction false} InsertSuppressed(x: Scored, s: seq<Scored>)
    requires Suppressed(s)
    requires forall k :: 0 <= k < |s| ==> !Clash(x.phrase, s[k].phrase)
    ensures Suppressed(Insert(x, s))
  {
    if s != [] && x.score < s[0].score {
      var t := Insert(x, s[1..]);
      InsertSuppressed(x, s[1..]);
      InsertMembers(x, s[1..]);
      forall k | 0 <= k < |t| ensures !Clash(s[0].phrase, t[k].phrase) {
        assert t[k] in t;
        if t[k] != x {
          var m :| 0 <= m < |s[1..]| && s[1..][m] == t[k];
          assert s[m + 1] == t[k];
        }
      }
      assert Insert(x, s) == [s[0]] + t;
      SuppressedCons(s[0], t);
    } else {
      assert Insert(x, s) == [x] + s;
      SuppressedCons(x, s);
    }
  }

  lemma {:induction false} InsertMembers(x: Scored, s: seq<Scored>)
    ensures forall y :: y in Insert(x, s) ==> y == x || y in s
  {
    if s != [] && x.score < s[0].score {
      InsertMembers(x, s[1..]);
      assert Insert(x, s) == [s[0]] + Insert(x, s[1..]);
    }
  }

  lemma SuppressedCons(h: Scored, t: seq<Scored>)
    requires Suppressed(t)
    requires forall k :: 0 <= k < |t| ==> !Clash(h.phrase, t[k].phrase)
    ensures Suppressed([h] + t)
  {
    var r := [h] + t;
    forall i, j | 0 <= i < j < |r| ensures !Clash(r[i].phrase, r[j].phrase) {
      if i == 0 {
        assert r[j] == t[j - 1];
      } else {
        assert r[i] == t[i - 1] && r[j] == t[j - 1];
      }
    }
  }

  lemma {:induction false} SortSuppressed(s: seq<Scored>)
    requires Suppressed(s)
    ensures Suppressed(SortDesc(s))
  {
    if s != [] {
      var t := SortDesc(s[1..]);
      SortSuppressed(s[1..]);
      SortMultiset(s[1..]);
      forall k | 0 <= k < |t| ensures !Clash(s[0].phrase, t[k].phrase) {
        assert t[k] in multiset(t);
        assert t[k] in s[1..];
        var m :| 0 <= m < |s[1..]| && s[1..][m] == t[k];
        assert s[m + 1] == t[k];
      }
      InsertSuppressed(s[0], t);
    }
  }

  // ---- the dedup loop ----

  /** The `seen` test never rejects a candidate the substring test accepts. */
  lemma SeenTestRedundant(u: seq<Scored>, k: string)
    ensures Admits(u, k) <==> forall j :: 0 <= j < |u| ==> !Clash(k, u[j].phrase)
  {
    if Lower(k) in LowerSet(u) {
      var j :| 0 <= j < |u| && Lower(u[j].phrase) == Lower(k);
      ContainsSelf(Lower(k));
      assert Clash(k, u[j].phrase);
    }
  }

  /** The accepted list has no phrase inside another, and takes only candidates. */
  lemma {:induction false} DedupSuppressed(c: seq<Scored>)
    ensures Suppressed(Dedup(c))
    ensures forall x :: x in Dedup(c) ==> x in c
  {
    if c != [] {
      var p := c[..|c| - 1];
      DedupSuppressed(p);
      assert c == p + [c[|c| - 1]];
    }
  }

  /** Candidates later in the list never displace earlier ones: unigrams are
      settled before any bigram is considered. */
  lemma {:induction false} DedupPrefix(a: seq<Scored>, b: seq<Scored>)
    ensures Dedup(a) <= Dedup(a + b)
    decreases |b|
  {
    if b == [] {
      assert a + b == a;
    } else {
      var b' := b[..|b| - 1];
      DedupPrefix(a, b');
      assert (a + b)[..|a + b| - 1] == a + b';
    }
  }

  lemma UnigramsFirst(f: seq<string>, n: nat)
    ensures Dedup(UnigramCandidates(f, n)) <= Dedup(Candidates(f, n))
  {
    DedupPrefix(UnigramCandidates(f, n), BigramCandidates(f, n));
  }

  // ---- where the candidates come from ----

  lemma {:induction false} PromoteFrom(cs: seq<Scored>, weight: int, render: string -> string, x: Scored)
    requires x in Promote(cs, weight, render)
    ensures exists y :: y in cs && y.score >= 2 && x == Scored(render(y.phrase), y.score * weight)
  {
    if cs[0].score >= 2 && x == Scored(render(cs[0].phrase), cs[0].score * weight) {
      assert cs[0] in cs;
    } else {
      PromoteFrom(cs[1..], weight, render, x);
      var y :| y in cs[1..] && y.score >= 2 && x == Scored(render(y.phrase), y.score * weight);
      assert y in cs;
    }
  }

  /** Dedup keeps a candidate unless it clashes with one accepted before it:
      together with DedupSuppressed, a candidate is dropped exactly when an
      earlier accepted phrase contains it or is contained in it. */
  lemma DedupKeeps(c: seq<Scored>, i: nat)
    requires i < |c|
    ensures c[i] in Dedup(c)
      || exists j :: 0 <= j < |Dedup(c[..i])| && Clash(c[i].phrase, Dedup(c[..i])[j].phrase)
  {
    var u := Dedup(c[..i]);
    SeenTestRedundant(u, c[i].phrase);
    if Admits(u, c[i].phrase) {
      DedupAdmitted(c, i);
    } else {
      var j :| 0 <= j < |u| && Clash(c[i].phrase, u[j].phrase);
      assert 0 <= j < |Dedup(c[..i])| && Clash(c[i].phrase, Dedup(c[..i])[j].phrase);
    }
  }

  /** A candidate that passes the test against what was accepted before it
      stays in the final list. */
  lemma DedupAdmitted(c: seq<Scored>, i: nat)
    requires i < |c| && Admits(Dedup(c[..i]), c[i].phrase)
    ensures c[i] in Dedup(c)
  {
    var u := Dedup(c[..i]);
    DedupStep(c, i, u);
    var v := Dedup(c[..i + 1]);
    assert v == u + [c[i]];
    DedupOfPrefix(c, i + 1);
    var d := Dedup(c);
    assert v <= d;
    assert d[|u|] == v[|u|] == c[i];
  }

  lemma DedupOfPrefix(c: seq<Scored>, k: nat)
    requires k <= |c|
    ensures Dedup(c[..k]) <= Dedup(c)
  {
    SplitAt(c, k);
    DedupPrefix(c[..k], c[k..]);
  }

  /** most_common(k) reports min(k, number of distinct elements) entries, best
      first, and no element left out counts more than any reported one. */
  lemma MostCommonTop(xs: seq<string>, k: nat)
    ensures |MostCommon(xs, k)| == if k <= |Distinct(xs)| then k else |Distinct(xs)|
    ensures SortedDesc(MostCommon(xs, k))
    ensures forall y, x :: (y in MostCommon(xs, k) && x in xs && Scored(x, multiset(xs)[x]) !in MostCommon(xs, k)
      ==> multiset(xs)[x] <= y.score)
  {
    var t := Tally(xs);
    var st := SortDesc(t);
    var r := MostCommon(xs, k);
    SortMultiset(t);
    SortSorted(t);
    assert |st| == |multiset(st)| == |t|;
    forall y, x | y in r && x in xs && Scored(x, multiset(xs)[x]) !in r
      ensures multiset(xs)[x] <= y.score
    {
      var e := Scored(x, multiset(xs)[x]);
      assert e in multiset(st);
      var m :| 0 <= m < |st| && st[m] == e;
      var i :| 0 <= i < |r| && r[i] == y;
      assert r[i] == st[i];
      assert r == st[..|r|];
      assert m >= |r|;
    }
  }


  /** Every ranked phrase is a capitalized token seen at least twice, scored
      twice its count, or a capitalized adjacent pair seen at least twice,
      scored four times its count. */
  lemma RankedProvenance(f: seq<string>, n: nat, x: Scored)
    requires x in Ranked(f, n)
    ensures (exists w :: w in f && multiset(f)[w] >= 2
               && x == Scored(Capitalize(w), 2 * multiset(f)[w]))
         || (exists b :: b in Bigrams(f) && multiset(Bigrams(f))[b] >= 2
               && x == Scored(CapitalizeWords(b), 4 * multiset(Bigrams(f))[b]))
  {
    RankedCandidate(f, n, x);
    if x in UnigramCandidates(f, n) {
      UnigramProvenance(f, n, x);
    } else {
      BigramProvenance(f, n, x);
    }
  }

  /** Ranking only reorders and drops candidates. */
  lemma RankedCandidate(f: seq<string>, n: nat, x: Scored)
    requires x in Ranked(f, n)
    ensures x in UnigramCandidates(f, n) || x in BigramCandidates(f, n)
  {
    var c := Candidates(f, n);
    SortMultiset(Dedup(c));
    assert x in multiset(Ranked(f, n));
    DedupSuppressed(c);
    assert x in Dedup(c);
  }

  lemma UnigramProvenance(f: seq<string>, n: nat, x: Scored)
    requires x in UnigramCandidates(f, n)
    ensures exists w :: w in f && multiset(f)[w] >= 2 && x == Scored(Capitalize(w), 2 * multiset(f)[w])
  {
    PromoteFrom(MostCommon(f, n * 3), 2, Capitalize, x);
    var y :| y in MostCommon(f, n * 3) && y.score >= 2 && x == Scored(Capitalize(y.phrase), y.score * 2);
  }

  lemma BigramProvenance(f: seq<string>, n: nat, x: Scored)
    requires x in BigramCandidates(f, n)
    ensures exists b :: (b in Bigrams(f) && multiset(Bigrams(f))[b] >= 2
      && x == Scored(CapitalizeWords(b), 4 * multiset(Bigrams(f))[b]))
  {
    PromoteFrom(MostCommon(Bigrams(f), n * 2), 4, CapitalizeWords, x);
    var y :| y in MostCommon(Bigrams(f), n * 2) && y.score >= 2
      && x == Scored(CapitalizeWords(y.phrase), y.score * 4);
  }

  // ---- what get_keywords promises ----

  /** At most n tags; none is a case-insensitive substring of another; none
      when no token survives the filter. */
  lemma KeywordsShape(tokens: seq<string>, corpus: set<string>, n: nat)
    ensures |KeywordsOf(tokens, corpus, n)| <= n
    ensures forall i, j :: 0 <= i < |KeywordsOf(tokens, corpus, n)| && 0 <= j < |KeywordsOf(tokens, corpus, n)| && i != j ==>
      !Contains(Lower(KeywordsOf(tokens, corpus, n)[j]), Lower(KeywordsOf(tokens, corpus, n)[i]))
    ensures Filtered(tokens, corpus + ExtraStopwords) == [] ==> KeywordsOf(tokens, corpus, n) == []
  {
    var f := Filtered(tokens, corpus + ExtraStopwords);
    if f != [] {
      var c := Candidates(f, n);
      DedupSuppressed(c);
      SortSuppressed(Dedup(c));
      var t := Take(Ranked(f, n), n);
      assert Suppressed(t);
    }
  }

  /** The tags come best score first, and equal scores keep candidate order. */
  lemma RankedOrder(f: seq<string>, n: nat)
    ensures SortedDesc(Ranked(f, n))
    ensures forall v :: WithScore(Ranked(f, n), v) == WithScore(Dedup(Candidates(f, n)), v)
  {
    SortSorted(Dedup(Candidates(f, n)));
    forall v ensures WithScore(Ranked(f, n), v) == WithScore(Dedup(Candidates(f, n)), v) {
      SortStable(Dedup(Candidates(f, n)), v);
    }
  }
}
