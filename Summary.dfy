/** summarize: picks the sentences of the extractive summary. The TF-IDF
    scoring is an input: the score of each sentence and the indices argsort
    put at the top. */
module Summary {
  import opened Text
  import opened Seqs

  /** What the vectorizer step produced: it raised, or it scored every
      sentence and named the top indices. */
  datatype Ranking = VectorizerFailed | Ranked(scores: seq<int>, top: seq<nat>)

  /** How many indices scores.argsort()[-n:] yields for m scores: n when
      n >= 1, but every index when n == 0, since [-0:] is the whole array. */
  function TopCount(n: nat, m: nat): nat {
    if n == 0 then m else if n <= m then n else m
  }

  /** top names k distinct sentences, and none scores below a sentence left out. */
  predicate IsTop(scores: seq<int>, top: seq<nat>, k: nat) {
    |top| == k && NoDup(top) && (forall i :: 0 <= i < |top| ==> top[i] < |scores|)
    && forall i, j :: 0 <= i < |top| && 0 <= j < |scores| && j !in top ==> scores[j] <= scores[top[i]]
  }

  /** What argsort guarantees about a ranking of these sentences; no ranking
      is computed when there are at most n sentences. */
  predicate Admissible(sents: seq<string>, n: nat, ranking: Ranking) {
    |sents| > n && ranking.Ranked? ==>
      |ranking.scores| == |sents| && IsTop(ranking.scores, ranking.top, TopCount(n, |sents|))
  }

  predicate Increasing(s: seq<nat>) {
    forall i, j :: 0 <= i < j < |s| ==> s[i] < s[j]
  }

  function Range(k: nat): (r: seq<nat>)
    ensures |r| == k && forall i :: 0 <= i < k ==> r[i] == i
  {
    seq(k, i requires 0 <= i < k => i)
  }

  /** Insertion into an ascending sequence. */
  function Insert(x: nat, s: seq<nat>): (r: seq<nat>)
    ensures |r| == |s| + 1
    ensures forall y :: y in r <==> y == x || y in s
  {
    if s == [] || x <= s[0] then [x] + s else [s[0]] + Insert(x, s[1..])
  }

  /** sorted(s) */
  function SortAsc(s: seq<nat>): (r: seq<nat>)
    ensures |r| == |s|
    ensures forall y :: y in r <==> y in s
  {
    if s == [] then [] else Insert(s[0], SortAsc(s[1..]))
  }

  /** The indices of the sentences the summary keeps, in text order: strictly
      increasing positions of real sentences, all of them when there are at
      most n, n of them on the fallback, and as many as argsort yields
      otherwise (n for n >= 1, every sentence for n == 0). */
  function Selected(sents: seq<string>, n: nat, ranking: Ranking): (r: seq<nat>)
    requires Admissible(sents, n, ranking)
    ensures Increasing(r) && forall i :: 0 <= i < |r| ==> r[i] < |sents|
    ensures |r| == (if |sents| <= n then |sents| else if ranking.Ranked? then TopCount(n, |sents|) else n)
  {
    if |sents| <= n then Range(|sents|)
    else match ranking
      case VectorizerFailed => Range(n)
      case Ranked(_, top) =>
        var ordered := SortAsc(top);
        SortAscIncreasing(top);
        SortAscBelow(top, |sents|);
        if 0 !in top && WordCount(sents[0]) < 30 then
          LeadSwapIncreasing(ordered);
          [0] + ordered[1..]
        else ordered
  }

  function Pick(sents: seq<string>, sel: seq<nat>): (r: seq<string>)
    requires forall i :: 0 <= i < |sel| ==> sel[i] < |sents|
    ensures |r| == |sel| && forall i :: 0 <= i < |sel| ==> r[i] == sents[sel[i]]
  {
    seq(|sel|, i requires 0 <= i < |sel| => sents[sel[i]])
  }

  /** summarize(text, n), with sentTokenize standing for NLTK's sent_tokenize:
      a text of at most n sentences comes back whole, and when the vectorizer
      raises the first n sentences are returned, space-joined. */
  function Summarize(text: string, n: nat, sentTokenize: string -> seq<string>, ranking: Ranking): (r: string)
    requires Admissible(sentTokenize(text), n, ranking)
    ensures |sentTokenize(text)| <= n ==> r == Join(" ", sentTokenize(text))
    ensures |sentTokenize(text)| > n && ranking.VectorizerFailed? ==> r == Join(" ", sentTokenize(text)[..n])
  {
    var sents := sentTokenize(text);
    var picked := Pick(sents, Selected(sents, n, ranking));
    assert |sents| <= n ==> picked == sents;
    assert |sents| > n && ranking.VectorizerFailed? ==> picked == sents[..n];
    Join(" ", picked)
  }

  // ---- sorting ----

  lemma {:induction false} InsertMultiset(x: nat, s: seq<nat>)
    ensures multiset(Insert(x, s)) == multiset(s) + multiset{x}
  {
    if s != [] && x > s[0] {
      InsertMultiset(x, s[1..]);
      assert s == [s[0]] + s[1..];
    }
  }

  /** sorted() permutes its input. */
  lemma {:induction false} SortAscMultiset(s: seq<nat>)
    ensures multiset(SortAsc(s)) == multiset(s)
  {
    if s != [] {
      SortAscMultiset(s[1..]);
      InsertMultiset(s[0], SortAsc(s[1..]));
      assert s == [s[0]] + s[1..];
    }
  }

  /** sorted() keeps a bound every element meets. */
  lemma SortAscBelow(s: seq<nat>, m: nat)
    requires forall i :: 0 <= i < |s| ==> s[i] < m
    ensures forall i :: 0 <= i < |SortAsc(s)| ==> SortAsc(s)[i] < m
  {
    forall i | 0 <= i < |SortAsc(s)| ensures SortAsc(s)[i] < m {
      assert SortAsc(s)[i] in s;
    }
  }

  lemma {:induction false} InsertIncreasing(x: nat, s: seq<nat>)
    requires Increasing(s) && x !in s
    ensures Increasing(Insert(x, s))
  {
    if s != [] && x > s[0] {
      InsertIncreasing(x, s[1..]);
      var t := Insert(x, s[1..]);
      forall y | y in t ensures s[0] < y {
        if y != x {
          var k :| 0 <= k < |s[1..]| && s[1..][k] == y;
          assert s[k + 1] == y;
        }
      }
      forall i, j | 0 <= i < j < |t| + 1 ensures ([s[0]] + t)[i] < ([s[0]] + t)[j] {
        if i == 0 {
          assert ([s[0]] + t)[j] == t[j - 1] && t[j - 1] in t;
        }
      }
    }
  }

  /** Distinct indices come out of sorted() strictly increasing. */
  lemma {:induction false} SortAscIncreasing(s: seq<nat>)
    requires NoDup(s)
    ensures Increasing(SortAsc(s))
  {
    if s != [] {
      assert NoDup(s[1..]) by {
        forall i, j | 0 <= i < j < |s[1..]| ensures s[1..][i] != s[1..][j] {
          assert s[1..][i] == s[i + 1] && s[1..][j] == s[j + 1];
        }
      }
      SortAscIncreasing(s[1..]);
      assert s[0] !in s[1..] by {
        forall k | 0 <= k < |s[1..]| ensures s[1..][k] != s[0] {
          assert s[1..][k] == s[k + 1];
        }
      }
      InsertIncreasing(s[0], SortAsc(s[1..]));
    }
  }

  // ---- what the selection promises ----

  lemma LeadSwapIncreasing(ordered: seq<nat>)
    requires Increasing(ordered) && ordered != [] && 0 !in ordered
    ensures Increasing([0] + ordered[1..])
  {
    var sel := [0] + ordered[1..];
    forall i, j | 0 <= i < j < |sel| ensures sel[i] < sel[j] {
      if i == 0 {
        assert sel[j] == ordered[j] && ordered[j] in ordered;
      } else {
        assert sel[i] == ordered[i] && sel[j] == ordered[j];
      }
    }
  }

  /** A lead sentence of fewer than 30 words always opens the summary when n >= 1. */
  lemma ShortLeadKept(sents: seq<string>, n: nat, ranking: Ranking)
    requires Admissible(sents, n, ranking) && n >= 1 && sents != [] && WordCount(sents[0]) < 30
    ensures Selected(sents, n, ranking) != [] && Selected(sents, n, ranking)[0] == 0
  {
    if |sents| > n && ranking.Ranked? && 0 in ranking.top {
      var ordered := SortAsc(ranking.top);
      assert 0 in ordered;
      var k :| 0 <= k < |ordered| && ordered[k] == 0;
    }
  }

  /** When the lead is brought in, it displaces the earliest-positioned top
      sentence, not the lowest-scored one: the rest of the top stays. */
  lemma LeadDisplacesEarliest(sents: seq<string>, n: nat, scores: seq<int>, top: seq<nat>)
    requires Admissible(sents, n, Ranked(scores, top)) && |sents| > n
    requires 0 !in top && WordCount(sents[0]) < 30
    ensures exists m :: (m in top && (forall y :: y in top ==> m <= y)
      && forall x :: x in Selected(sents, n, Ranked(scores, top)) <==> (x == 0 || (x in top && x != m)))
  {
    var ordered := SortAsc(top);
    SortAscIncreasing(top);
    var m := ordered[0];
    assert m in top;
    forall y | y in top ensures m <= y {
      var k :| 0 <= k < |ordered| && ordered[k] == y;
    }
    var sel := Selected(sents, n, Ranked(scores, top));
    assert sel == [0] + ordered[1..];
    LeadSwapMembers(ordered);
    assert forall x :: x in sel <==> (x == 0 || (x in top && x != m));
  }

  /** Swapping the lead in for the first of strictly increasing indices drops
      exactly that first one. */
  lemma LeadSwapMembers(ordered: seq<nat>)
    requires Increasing(ordered) && ordered != []
    ensures forall x :: x in [0] + ordered[1..] <==> (x == 0 || (x in ordered && x != ordered[0]))
  {
    var sel := [0] + ordered[1..];
    forall x ensures x in sel <==> (x == 0 || (x in ordered && x != ordered[0])) {
      if x in ordered && x != ordered[0] {
        var k :| 0 <= k < |ordered| && ordered[k] == x;
        assert sel[k] == x;
      }
      if x in sel && x != 0 {
        var k :| 0 <= k < |sel| && sel[k] == x;
        assert x == ordered[k];
      }
    }
  }

  /** Every selected sentence other than the lead is a top-scoring one: none
      of the sentences outside the top scores higher. */
  lemma SelectedScoreWell(sents: seq<string>, n: nat, scores: seq<int>, top: seq<nat>, x: nat, j: nat)
    requires Admissible(sents, n, Ranked(scores, top)) && |sents| > n
    requires x in Selected(sents, n, Ranked(scores, top)) && x != 0
    requires j < |sents| && j !in top
    ensures x in top && scores[j] <= scores[x]
  {
    var ordered := SortAsc(top);
    var k :| 0 <= k < |Selected(sents, n, Ranked(scores, top))| && Selected(sents, n, Ranked(scores, top))[k] == x;
    if 0 !in top && WordCount(sents[0]) < 30 {
      assert x == ordered[k] && ordered[k] in ordered;
    } else {
      assert x in ordered;
    }
    var t :| 0 <= t < |top| && top[t] == x;
  }

  /** summarize(text, 0) keeps every sentence: argsort()[-0:] is the whole ranking. */
  lemma ZeroKeepsAll(sents: seq<string>, scores: seq<int>, top: seq<nat>)
    requires Admissible(sents, 0, Ranked(scores, top)) && sents != []
    ensures Selected(sents, 0, Ranked(scores, top)) == Range(|sents|)
  {
    var sel := Selected(sents, 0, Ranked(scores, top));
    IncreasingBelowIsRange(sel, |sents|);
  }

  /** m strictly increasing indices below m are 0, 1, ..., m - 1. */
  lemma {:induction false} IncreasingBelowIsRange(s: seq<nat>, m: nat)
    requires Increasing(s) && |s| == m && forall i :: 0 <= i < |s| ==> s[i] < m
    ensures s == Range(m)
  {
    forall i | 0 <= i < m ensures s[i] == i {
      IncreasingBounds(s, m, i);
    }
  }

  lemma {:induction false} IncreasingBounds(s: seq<nat>, m: nat, i: nat)
    requires Increasing(s) && |s| == m && (forall k :: 0 <= k < |s| ==> s[k] < m) && i < m
    ensures s[i] == i
  {
    IncreasingFloor(s, i);
    IncreasingCeiling(s, m, i);
  }

  lemma {:induction false} IncreasingFloor(s: seq<nat>, i: nat)
    requires Increasing(s) && i < |s|
    ensures s[i] >= i
    decreases i
  {
    if i > 0 {
      IncreasingFloor(s, i - 1);
    }
  }

  lemma {:induction false} IncreasingCeiling(s: seq<nat>, m: nat, i: nat)
    requires Increasing(s) && |s| == m && (forall k :: 0 <= k < |s| ==> s[k] < m) && i < m
    ensures s[i] <= i
    decreases m - i
  {
    if i < m - 1 {
      IncreasingCeiling(s, m, i + 1);
    }
  }
}
