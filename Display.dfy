/** time_ago: the elapsed-time badge shown on an article. */
module Display {
  import opened Text

  /** The seconds one unit of the badge stands for. */
  function Span(unit: char): nat {
    if unit == 'm' then 60 else if unit == 'h' then 3600 else 86400
  }

  /** time_ago over whole seconds elapsed: under a minute is "Just now",
      then whole minutes, hours or days with the unit's letter. */
  function TimeAgo(seconds: int): (r: string)
    ensures r == "Just now" <==> seconds < 60
    ensures seconds >= 60 ==> |r| >= 2 && r[|r| - 1] in {'m', 'h', 'd'}
  {
    if seconds < 60 then "Just now"
    else if seconds < 3600 then Badge(seconds / 60, 'm')
    else if seconds < 86400 then Badge(seconds / 3600, 'h')
    else Badge(seconds / 86400, 'd')
  }

  /** A count followed by its unit letter; never the "Just now" text. */
  function Badge(q: nat, unit: char): (r: string)
    requires unit in {'m', 'h', 'd'}
    ensures r == NatToString(q) + [unit]
    ensures |r| >= 2 && r[|r| - 1] == unit && r != "Just now"
  {
    var r := NatToString(q) + [unit];
    assert r[|r| - 1] == unit;
    assert "Just now"[7] == 'w';
    r
  }

  /** Reading a badge back: its number is the whole count of its unit in the
      elapsed time, minutes and hours never reach the next unit, and the unit
      is the largest one that fits. */
  lemma TimeAgoReadBack(seconds: int)
    requires seconds >= 60
    ensures var r := TimeAgo(seconds);
      |r| >= 2 && r[|r| - 1] in {'m', 'h', 'd'}
      && (forall i :: 0 <= i < |r| - 1 ==> '0' <= r[i] <= '9')
      && (r[|r| - 1] == 'm' <==> seconds < 3600)
      && (r[|r| - 1] == 'd' <==> seconds >= 86400)
      && ParseNatPrefix(r) * Span(r[|r| - 1]) <= seconds < (ParseNatPrefix(r) + 1) * Span(r[|r| - 1])
      && ParseNatPrefix(r) >= 1
      && (r[|r| - 1] == 'm' ==> ParseNatPrefix(r) < 60)
      && (r[|r| - 1] == 'h' ==> ParseNatPrefix(r) < 24)
  {
    var u := if seconds < 3600 then 'm' else if seconds < 86400 then 'h' else 'd';
    var q := seconds / Span(u);
    assert TimeAgo(seconds) == Badge(q, u);
    BadgeReadBack(q, u);
    DivBounds(seconds, Span(u));
  }

  /** The number of a badge reads back as its count. */
  lemma BadgeReadBack(q: nat, unit: char)
    requires unit in {'m', 'h', 'd'}
    ensures var r := Badge(q, unit);
      (forall i :: 0 <= i < |r| - 1 ==> '0' <= r[i] <= '9') && ParseNatPrefix(r) == q
  {
    var r := Badge(q, unit);
    assert r[..|r| - 1] == NatToString(q);
    ParseNatToString(q);
  }

  lemma DivBounds(n: int, d: nat)
    requires d > 0
    ensures (n / d) * d <= n < (n / d + 1) * d
  {
  }

  /** The number in front of the unit letter. */
  function ParseNatPrefix(r: string): nat
    requires |r| >= 1 && forall i :: 0 <= i < |r| - 1 ==> '0' <= r[i] <= '9'
  {
    ParseNat(r[..|r| - 1])
  }
}
