/** String operations with the meaning that the Python str methods used by
    app.py give them. Case mapping is modelled for ASCII letters only. */
module Text {

  /** The characters Python's str.split() and str.strip() treat as whitespace. */
  predicate IsSpace(c: char) {
    c == ' ' || ('\t' <= c <= '\r') || ('\U{1C}' <= c <= '\U{1F}') || c == '\U{85}'
    || c == '\U{A0}' || c == '\U{1680}' || ('\U{2000}' <= c <= '\U{200A}')
    || c == '\U{2028}' || c == '\U{2029}' || c == '\U{202F}' || c == '\U{205F}'
    || c == '\U{3000}'
  }

  predicate IsLetter(c: char) {
    'a' <= c <= 'z' || 'A' <= c <= 'Z'
  }

  function LowerChar(c: char): char {
    if 'A' <= c <= 'Z' then (c as int + 32) as char else c
  }

  function UpperChar(c: char): char {
    if 'a' <= c <= 'z' then (c as int - 32) as char else c
  }

  /** str.lower() */
  function Lower(s: string): string {
    seq(|s|, i requires 0 <= i < |s| => LowerChar(s[i]))
  }

  /** str.isalpha(): non-empty and letters only. */
  predicate IsAlpha(s: string) {
    s != [] && forall i :: 0 <= i < |s| ==> IsLetter(s[i])
  }

  /** str.isupper(): some cased character, and no lower-case one. */
  predicate IsUpper(s: string) {
    (exists i :: 0 <= i < |s| && 'A' <= s[i] <= 'Z')
    && forall i :: 0 <= i < |s| ==> !('a' <= s[i] <= 'z')
  }

  /** str.capitalize(): first character upper-cased, the rest lower-cased. */
  function Capitalize(w: string): string {
    if w == [] then [] else [UpperChar(w[0])] + Lower(w[1..])
  }

  /** str.title(): a letter is upper-cased when it follows a non-letter
      and lower-cased when it follows a letter. */
  function TitleCase(s: string): string {
    TitleFrom(s, false)
  }

  function TitleFrom(s: string, afterLetter: bool): string
    decreases |s|
  {
    if s == [] then []
    else
      var c := s[0];
      var d := if !IsLetter(c) then c else if afterLetter then LowerChar(c) else UpperChar(c);
      [d] + TitleFrom(s[1..], IsLetter(c))
  }

  /** Python's `pat in s`. */
  predicate Contains(s: string, pat: string) {
    exists i :: 0 <= i <= |s| - |pat| && pat <= s[i..]
  }

  lemma ContainsSelf(s: string)
    ensures Contains(s, s)
  {
    assert s <= s[0..];
  }

  /** An occurrence in a non-empty text is at its front or in its tail. */
  lemma ContainsUncons(s: string, pat: string)
    requires s != []
    ensures Contains(s, pat) <==> (pat <= s || Contains(s[1..], pat))
  {
    assert s[0..] == s;
    if Contains(s[1..], pat) {
      var i :| 0 <= i <= |s[1..]| - |pat| && pat <= s[1..][i..];
      assert s[1..][i..] == s[i + 1..];
    }
    if Contains(s, pat) && !(pat <= s) {
      var i :| 0 <= i <= |s| - |pat| && pat <= s[i..];
      assert i != 0;
      assert s[1..][i - 1..] == s[i..];
    }
  }

  lemma ContainsMiddle(a: string, b: string, c: string)
    ensures Contains(a + b + c, b)
  {
    var s := a + b + c;
    assert s[|a|..] == b + c;
  }

  /** s.split()[k] for every k: the maximal runs of non-whitespace characters. */
  function Words(s: string): seq<string> {
    WordsFrom(s, [])
  }

  function WordsFrom(s: string, cur: string): seq<string>
    decreases |s|
  {
    if s == [] then (if cur == [] then [] else [cur])
    else if IsSpace(s[0]) then (if cur == [] then [] else [cur]) + WordsFrom(s[1..], [])
    else WordsFrom(s[1..], cur + [s[0]])
  }

  /** sep.join(ws) */
  function Join(sep: string, ws: seq<string>): string
    decreases |ws|
  {
    if ws == [] then []
    else if |ws| == 1 then ws[0]
    else ws[0] + sep + Join(sep, ws[1..])
  }

  /** ' '.join(s.split()): runs of whitespace become one space, ends trimmed. */
  function Collapse(s: string): string {
    Join(" ", Words(s))
  }

  /** len(s.split()) */
  function WordCount(s: string): nat {
    |Words(s)|
  }

  predicate IsWord(w: string) {
    w != [] && forall i :: 0 <= i < |w| ==> !IsSpace(w[i])
  }

  lemma {:induction false} WordsFromAreWords(s: string, cur: string)
    requires forall i :: 0 <= i < |cur| ==> !IsSpace(cur[i])
    ensures forall w :: w in WordsFrom(s, cur) ==> IsWord(w)
    decreases |s|
  {
    if s == [] {
    } else if IsSpace(s[0]) {
      WordsFromAreWords(s[1..], []);
    } else {
      WordsFromAreWords(s[1..], cur + [s[0]]);
    }
  }

  lemma {:induction false} WordsFromSkipsWord(w: string, rest: string, cur: string)
    requires forall i :: 0 <= i < |w| ==> !IsSpace(w[i])
    ensures WordsFrom(w + rest, cur) == WordsFrom(rest, cur + w)
    decreases |w|
  {
    if w == [] {
      assert w + rest == rest;
      assert cur + w == cur;
    } else {
      assert (w + rest)[1..] == w[1..] + rest;
      WordsFromSkipsWord(w[1..], rest, cur + [w[0]]);
      assert cur + [w[0]] + w[1..] == cur + w;
    }
  }

  /** Splitting text that is already single-space separated words gives the words back. */
  lemma {:induction false} WordsOfJoin(ws: seq<string>)
    requires forall k :: 0 <= k < |ws| ==> IsWord(ws[k])
    ensures Words(Join(" ", ws)) == ws
    decreases |ws|
  {
    if ws == [] {
    } else if |ws| == 1 {
      WordsFromSkipsWord(ws[0], [], []);
      assert ws[0] + [] == ws[0];
      assert [] + ws[0] == ws[0];
    } else {
      var j := Join(" ", ws[1..]);
      assert Join(" ", ws) == ws[0] + (" " + j);
      WordsFromSkipsWord(ws[0], " " + j, []);
      assert [] + ws[0] == ws[0];
      assert (" " + j)[1..] == j;
      WordsOfJoin(ws[1..]);
    }
  }

  /** Collapsing whitespace twice changes nothing more than collapsing it once. */
  lemma CollapseIdempotent(s: string)
    ensures Collapse(Collapse(s)) == Collapse(s)
  {
    var ws := Words(s);
    WordsFromAreWords(s, []);
    assert forall k :: 0 <= k < |ws| ==> IsWord(ws[k]) by {
      forall k | 0 <= k < |ws| ensures IsWord(ws[k]) {
        assert ws[k] in ws;
      }
    }
    WordsOfJoin(ws);
  }

  /** s.split(c) for a one-character separator: the pieces between the
      separators, empty ones included, never none. */
  function SplitOn(s: string, c: char): (r: seq<string>)
    ensures r != []
    ensures forall k :: 0 <= k < |r| ==> c !in r[k]
    decreases |s|
  {
    if s == [] then [[]]
    else
      var rest := SplitOn(s[1..], c);
      if s[0] == c then [[]] + rest else [[s[0]] + rest[0]] + rest[1..]
  }

  lemma JoinCons(sep: string, w: string, ws: seq<string>)
    ensures Join(sep, [w] + ws) == if ws == [] then w else w + sep + Join(sep, ws)
  {
    assert ([w] + ws)[1..] == ws;
  }

  /** Joining the pieces with the separator gives the string back. */
  lemma {:induction false} JoinSplitOn(s: string, c: char)
    ensures Join([c], SplitOn(s, c)) == s
    decreases |s|
  {
    if s != [] {
      var rest := SplitOn(s[1..], c);
      JoinSplitOn(s[1..], c);
      if s[0] == c {
        JoinCons([c], [], rest);
        assert s == [c] + s[1..];
      } else {
        assert rest == [rest[0]] + rest[1..];
        JoinCons([c], rest[0], rest[1..]);
        JoinCons([c], [s[0]] + rest[0], rest[1..]);
        assert s == [s[0]] + s[1..];
        if rest[1..] != [] {
          assert [s[0]] + rest[0] + [c] + Join([c], rest[1..])
            == [s[0]] + (rest[0] + [c] + Join([c], rest[1..]));
        }
      }
    }
  }

  /** Splitting after a separator-free head: the head joins the first piece. */
  lemma {:induction false} SplitOnHead(a: string, t: string, c: char)
    requires c !in a
    ensures SplitOn(a + t, c) == [a + SplitOn(t, c)[0]] + SplitOn(t, c)[1..]
    decreases |a|
  {
    var st := SplitOn(t, c);
    if a == [] {
      assert a + t == t;
      assert a + st[0] == st[0];
      assert st == [st[0]] + st[1..];
    } else {
      assert (a + t)[0] == a[0];
      assert (a + t)[1..] == a[1..] + t;
      SplitOnHead(a[1..], t, c);
      assert [a[0]] + (a[1..] + st[0]) == a + st[0];
    }
  }

  /** Splitting separator-free pieces joined by the separator gives the pieces back. */
  lemma {:induction false} SplitOnJoin(ws: seq<string>, c: char)
    requires ws != []
    requires forall k :: 0 <= k < |ws| ==> c !in ws[k]
    ensures SplitOn(Join([c], ws), c) == ws
    decreases |ws|
  {
    if |ws| == 1 {
      SplitOnHead(ws[0], [], c);
      assert ws[0] + [] == ws[0];
    } else {
      var j := Join([c], ws[1..]);
      assert Join([c], ws) == ws[0] + ([c] + j);
      SplitOnHead(ws[0], [c] + j, c);
      assert ([c] + j)[1..] == j;
      SplitOnJoin(ws[1..], c);
      assert ws[0] + [] == ws[0];
    }
  }

  /** Joining the first k pieces gives a prefix of joining them all. */
  lemma {:induction false} JoinTakePrefix(sep: string, ws: seq<string>, k: nat)
    requires k <= |ws|
    ensures Join(sep, ws[..k]) <= Join(sep, ws)
    decreases k
  {
    if k > 0 {
      assert ws == [ws[0]] + ws[1..];
      assert ws[..k] == [ws[0]] + ws[1..][..k - 1];
      JoinCons(sep, ws[0], ws[1..]);
      JoinCons(sep, ws[0], ws[1..][..k - 1]);
      if k > 1 {
        JoinTakePrefix(sep, ws[1..], k - 1);
        assert ws[1..][..k - 1] != [];
      }
    }
  }

  /** Lower-casing works character by character. */
  lemma LowerAppend(a: string, b: string)
    ensures Lower(a + b) == Lower(a) + Lower(b)
  {
  }

  /** Text found in a suffix is found in the whole. */
  lemma ContainsAfter(a: string, b: string, pat: string)
    ensures Contains(b, pat) ==> Contains(a + b, pat)
  {
    if Contains(b, pat) {
      var i :| 0 <= i <= |b| - |pat| && pat <= b[i..];
      assert (a + b)[|a| + i..] == b[i..];
    }
  }

  /** How many characters s.strip(chars) cuts from the front: the length of
      the longest prefix of dropped characters. */
  function LeadingDropped(s: string, drop: char -> bool): (k: nat)
    ensures k <= |s|
    ensures forall i :: 0 <= i < k ==> drop(s[i])
    ensures k < |s| ==> !drop(s[k])
    decreases |s|
  {
    if s != [] && drop(s[0]) then 1 + LeadingDropped(s[1..], drop) else 0
  }

  function TrimEnd(s: string, drop: char -> bool): (r: string)
    ensures r <= s
    ensures forall k :: |r| <= k < |s| ==> drop(s[k])
    ensures r == [] || !drop(r[|r| - 1])
    decreases |s|
  {
    if s != [] && drop(s[|s| - 1]) then TrimEnd(s[..|s| - 1], drop) else s
  }

  /** s.strip(chars): drop characters satisfying `drop` from both ends. The
      result is the piece of s that starts after the leading dropped
      characters, everything after it is dropped, and it neither starts nor
      ends with a dropped character. */
  function StripWhere(s: string, drop: char -> bool): (r: string)
    ensures LeadingDropped(s, drop) + |r| <= |s|
    ensures r == s[LeadingDropped(s, drop)..LeadingDropped(s, drop) + |r|]
    ensures forall k :: LeadingDropped(s, drop) + |r| <= k < |s| ==> drop(s[k])
    ensures r == [] || (!drop(r[0]) && !drop(r[|r| - 1]))
  {
    var a := LeadingDropped(s, drop);
    var r := TrimEnd(s[a..], drop);
    StripPiece(s, a, r, drop);
    r
  }

  /** Trimming the back of s[a..] leaves a piece of s with only dropped
      characters after it. */
  lemma StripPiece(s: string, a: nat, r: string, drop: char -> bool)
    requires a <= |s| && r == TrimEnd(s[a..], drop)
    ensures a + |r| <= |s| && r == s[a..a + |r|]
    ensures forall k :: a + |r| <= k < |s| ==> drop(s[k])
  {
    var t := s[a..];
    assert r == t[..|r|];
    forall k | a + |r| <= k < |s| ensures drop(s[k]) {
      assert s[k] == t[k - a];
    }
  }

  /** s.strip() */
  function Strip(s: string): string {
    StripWhere(s, IsSpace)
  }

  /** s.replace(pat, ''): remove the non-overlapping occurrences of pat, left
      to right. A text without pat is left as it is; one with pat loses at
      least one copy of it. */
  function RemoveAll(s: string, pat: string): (r: string)
    requires pat != []
    ensures |r| <= |s|
    ensures !Contains(s, pat) ==> r == s
    ensures Contains(s, pat) ==> |r| <= |s| - |pat|
    decreases |s|
  {
    if |s| < |pat| then s
    else if pat <= s then
      assert s[0..] == s;
      RemoveAll(s[|pat|..], pat)
    else
      ContainsUncons(s, pat);
      [s[0]] + RemoveAll(s[1..], pat)
  }

  /** s.split(sep)[0]: what precedes the first occurrence of sep, or all of s
      when sep does not occur. The result holds no sep, and sep follows it in s. */
  function PrefixBefore(s: string, sep: string): (r: string)
    requires sep != []
    ensures r <= s && !Contains(r, sep)
    ensures Contains(s, sep) ==> r + sep <= s
    ensures !Contains(s, sep) ==> r == s
    decreases |s|
  {
    if sep <= s then
      assert s[0..] == s;
      []
    else if s == [] then []
    else
      var r' := PrefixBefore(s[1..], sep);
      ContainsUncons(s, sep);
      PrefixStepFree(s, sep, r');
      PrefixStepExtend(s, sep, r', Contains(s[1..], sep));
      [s[0]] + r'
  }

  /** A character that does not start sep, put before a text free of sep that
      s continues with, gives a text still free of sep. */
  lemma PrefixStepFree(s: string, sep: string, r': string)
    requires sep != [] && s != [] && !(sep <= s)
    requires r' <= s[1..] && !Contains(r', sep)
    ensures [s[0]] + r' <= s && !Contains([s[0]] + r', sep)
  {
    var r := [s[0]] + r';
    assert r[1..] == r';
    assert r <= s;
    ContainsUncons(r, sep);
  }

  /** Putting s[0] back keeps "sep follows the prefix" (when `found`) and
      "the prefix is everything" (otherwise). */
  lemma PrefixStepExtend(s: string, sep: string, r': string, found: bool)
    requires s != []
    requires found ==> r' + sep <= s[1..]
    requires !found ==> r' == s[1..]
    ensures found ==> [s[0]] + r' + sep <= s
    ensures !found ==> [s[0]] + r' == s
  {
    assert s == [s[0]] + s[1..];
    if found {
      assert [s[0]] + r' + sep == [s[0]] + (r' + sep);
    }
  }

  function DigitChar(d: nat): char
    requires d < 10
  {
    ('0' as int + d) as char
  }

  /** str(n) for a natural number: its decimal digits. */
  function NatToString(n: nat): (r: string)
    ensures r != []
    ensures forall i :: 0 <= i < |r| ==> '0' <= r[i] <= '9'
  {
    if n < 10 then [DigitChar(n)] else NatToString(n / 10) + [DigitChar(n % 10)]
  }

  /** int(s) for a string of decimal digits. */
  function ParseNat(s: string): nat
    requires forall i :: 0 <= i < |s| ==> '0' <= s[i] <= '9'
  {
    if s == [] then 0 else ParseNat(s[..|s| - 1]) * 10 + (s[|s| - 1] as int - '0' as int)
  }

  /** Reading back the decimal rendering of a number gives the number. */
  lemma {:induction false} ParseNatToString(n: nat)
    ensures ParseNat(NatToString(n)) == n
  {
    if n >= 10 {
      var r := NatToString(n);
      assert r[..|r| - 1] == NatToString(n / 10);
      ParseNatToString(n / 10);
    }
  }
}
