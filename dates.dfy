/** `_standardize_date` (services/cto51_crawler.py): find a date in free text
    and render it as zero-padded `YYYY-MM-DD`, falling back to today's date.

    The two regular expressions of the source are searched left to right with
    Python's backtracking: `\d{1,2}` first tries two digits, then one.
      pattern 1: (\d{4})[.\-/年](\d{1,2})[.\-/月](\d{1,2})
      pattern 2: (\d{1,2})[.\-/](\d{1,2})[.\-/](\d{4})
    Only ASCII digits count as `\d`. */
module Dates {
  import opened News
  import opened Text

  /** The three captured groups of a match, in pattern order. */
  datatype Groups = Groups(first: string, second: string, third: string)

  /** The separator classes: `[.\-/]`, widened by one CJK character when `cjk` is given. */
  predicate IsSep(c: char, cjk: Option<char>) {
    c == '.' || c == '-' || c == '/' || (cjk.Some? && c == cjk.value)
  }

  /** `n` ASCII digits start at index `i` of `s`. */
  predicate DigitsAt(s: string, i: nat, n: nat) {
    i + n <= |s| && AllDigits(s[i..i + n])
  }

  /** A separator of class `cjk` sits at index `i`. */
  predicate SepAt(s: string, i: nat, cjk: Option<char>) {
    i < |s| && IsSep(s[i], cjk)
  }

  /** The greedy final `\d{1,2}` at index `i`, given that a digit is there. */
  function LastGroup(s: string, i: nat): (g: string)
    requires DigitsAt(s, i, 1)
    ensures 1 <= |g| <= 2 && AllDigits(g)
  {
    if DigitsAt(s, i, 2) then s[i..i + 2] else s[i..i + 1]
  }

  /** Pattern 1 anchored at index `p`. */
  function MatchYmdAt(s: string, p: nat): Option<Groups> {
    if !(DigitsAt(s, p, 4) && SepAt(s, p + 4, Some('年'))) then None
    else
      var m := p + 5;
      if DigitsAt(s, m, 2) && SepAt(s, m + 2, Some('月')) && DigitsAt(s, m + 3, 1) then
        Some(Groups(s[p..p + 4], s[m..m + 2], LastGroup(s, m + 3)))
      else if DigitsAt(s, m, 1) && SepAt(s, m + 1, Some('月')) && DigitsAt(s, m + 2, 1) then
        Some(Groups(s[p..p + 4], s[m..m + 1], LastGroup(s, m + 2)))
      else None
  }

  /** The tail of pattern 2, `(\d{1,2})[.\-/](\d{4})`, at index `q`, after the first group `g1`. */
  function DmyTail(s: string, g1: string, q: nat): Option<Groups> {
    if DigitsAt(s, q, 2) && SepAt(s, q + 2, None) && DigitsAt(s, q + 3, 4) then
      Some(Groups(g1, s[q..q + 2], s[q + 3..q + 7]))
    else if DigitsAt(s, q, 1) && SepAt(s, q + 1, None) && DigitsAt(s, q + 2, 4) then
      Some(Groups(g1, s[q..q + 1], s[q + 2..q + 6]))
    else None
  }

  /** Pattern 2 anchored at index `p`. */
  function MatchDmyAt(s: string, p: nat): Option<Groups> {
    var two := if DigitsAt(s, p, 2) && SepAt(s, p + 2, None) then DmyTail(s, s[p..p + 2], p + 3) else None;
    if two.Some? then two
    else if DigitsAt(s, p, 1) && SepAt(s, p + 1, None) then DmyTail(s, s[p..p + 1], p + 2)
    else None
  }

  function MatchAt(s: string, p: nat, dayFirst: bool): Option<Groups> {
    if dayFirst then MatchDmyAt(s, p) else MatchYmdAt(s, p)
  }

  /** `re.search`: the match at the leftmost index `>= p`, and that index. */
  function Search(s: string, p: nat, dayFirst: bool): (r: Option<(nat, Groups)>)
    decreases |s| + 1 - p
    ensures r.Some? ==> p <= r.value.0 <= |s| && MatchAt(s, r.value.0, dayFirst) == Some(r.value.1)
  {
    if p > |s| then None
    else
      var m := MatchAt(s, p, dayFirst);
      if m.Some? then Some((p, m.value)) else Search(s, p + 1, dayFirst)
  }

  /** Every group a pattern captures is a run of ASCII digits. */
  predicate NumericGroups(g: Groups) {
    AllDigits(g.first) && AllDigits(g.second) && AllDigits(g.third)
  }

  lemma MatchNumeric(s: string, p: nat, dayFirst: bool)
    requires MatchAt(s, p, dayFirst).Some?
    ensures NumericGroups(MatchAt(s, p, dayFirst).value)
  {
  }

  /** The groups are read as year, month, day when the first one exceeds 1900,
      and as day, month, year otherwise; each is printed with `:04d` / `:02d`. */
  function Render(g: Groups): (r: string)
    requires NumericGroups(g)
  {
    var (y, m, d) := if DecimalValue(g.first) > 1900 then (g.first, g.second, g.third)
                     else (g.third, g.second, g.first);
    ZeroPad(DecimalValue(y), 4) + "-" + ZeroPad(DecimalValue(m), 2) + "-" + ZeroPad(DecimalValue(d), 2)
  }

  /** `_standardize_date(date_str)`, with `datetime.now().strftime('%Y-%m-%d')` passed in as `today`. */
  function StandardizeDate(dateStr: string, today: string): (r: string) {
    if dateStr == [] then today
    else
      var ymd := Search(dateStr, 0, false);
      if ymd.Some? then
        MatchNumeric(dateStr, ymd.value.0, false);
        Render(ymd.value.1)
      else
        var dmy := Search(dateStr, 0, true);
        if dmy.Some? then
          MatchNumeric(dateStr, dmy.value.0, true);
          Render(dmy.value.1)
        else today
  }

  /** Year, month and day printed as the source prints them. */
  function IsoDate(y: nat, m: nat, d: nat): string {
    ZeroPad(y, 4) + "-" + ZeroPad(m, 2) + "-" + ZeroPad(d, 2)
  }

  // ---------------------------------------------------------------- properties

  /** The match `Search` returns is the leftmost one. */
  lemma {:induction false} SearchIsLeftmost(s: string, p: nat, dayFirst: bool, q: nat)
    requires p <= q
    requires Search(s, p, dayFirst).Some? ==> q < Search(s, p, dayFirst).value.0
    requires q <= |s|
    ensures MatchAt(s, q, dayFirst).None?
    decreases |s| + 1 - p
  {
    if p < q {
      SearchIsLeftmost(s, p + 1, dayFirst, q);
    }
  }

  /** `Search` finds a match whenever one exists at or after `p`. */
  lemma {:induction false} SearchComplete(s: string, p: nat, dayFirst: bool, q: nat)
    requires p <= q <= |s| && MatchAt(s, q, dayFirst).Some?
    ensures Search(s, p, dayFirst).Some? && Search(s, p, dayFirst).value.0 <= q
    decreases q - p
  {
    if p < q && MatchAt(s, p, dayFirst).None? {
      SearchComplete(s, p + 1, dayFirst, q);
    }
  }

  /** An empty input, or one in which neither pattern matches anywhere, yields today's date. */
  lemma NoMatchMeansToday(dateStr: string, today: string)
    requires forall p: nat :: p <= |dateStr| ==> MatchAt(dateStr, p, false).None? && MatchAt(dateStr, p, true).None?
    ensures StandardizeDate(dateStr, today) == today
  {
    if dateStr != [] {
      assert Search(dateStr, 0, false).None?;
      assert Search(dateStr, 0, true).None?;
    }
  }

  /** A match of either pattern decides the result, and the result then has the
      `YYYY-MM-DD` shape (wider fields when a value needs more digits; no range check). */
  lemma MatchGivesIsoShape(dateStr: string, today: string, p: nat, dayFirst: bool)
    returns (ys: string, ms: string, ds: string)
    requires p <= |dateStr| && MatchAt(dateStr, p, dayFirst).Some?
    ensures StandardizeDate(dateStr, today) == ys + "-" + ms + "-" + ds
    ensures |ys| >= 4 && |ms| >= 2 && |ds| >= 2
    ensures AllDigits(ys) && AllDigits(ms) && AllDigits(ds)
  {
    SearchComplete(dateStr, 0, dayFirst, p);
    var ymd := Search(dateStr, 0, false);
    var g: Groups;
    if ymd.Some? {
      g := ymd.value.1;
      MatchNumeric(dateStr, ymd.value.0, false);
    } else {
      g := Search(dateStr, 0, true).value.1;
      MatchNumeric(dateStr, Search(dateStr, 0, true).value.0, true);
    }
    var (y, m, d) := if DecimalValue(g.first) > 1900 then (g.first, g.second, g.third)
                     else (g.third, g.second, g.first);
    ys, ms, ds := ZeroPad(DecimalValue(y), 4), ZeroPad(DecimalValue(m), 2), ZeroPad(DecimalValue(d), 2);
  }

  /** The groups that decide the result: those of the leftmost year-first
      match, else those of the leftmost day-first match. They are read as
      year, month, day when the first exceeds 1900, and as day, month, year
      otherwise, and printed zero-padded with no range check. */
  lemma MatchedFields(dateStr: string, today: string) returns (g: Groups)
    requires dateStr != [] && (Search(dateStr, 0, false).Some? || Search(dateStr, 0, true).Some?)
    ensures Search(dateStr, 0, false).Some? ==> g == Search(dateStr, 0, false).value.1
    ensures Search(dateStr, 0, false).None? ==> g == Search(dateStr, 0, true).value.1
    ensures NumericGroups(g)
    ensures DecimalValue(g.first) > 1900 ==>
      StandardizeDate(dateStr, today) == IsoDate(DecimalValue(g.first), DecimalValue(g.second), DecimalValue(g.third))
    ensures DecimalValue(g.first) <= 1900 ==>
      StandardizeDate(dateStr, today) == IsoDate(DecimalValue(g.third), DecimalValue(g.second), DecimalValue(g.first))
  {
    var ymd := Search(dateStr, 0, false);
    if ymd.Some? {
      g := ymd.value.1;
      MatchNumeric(dateStr, ymd.value.0, false);
    } else {
      var dmy := Search(dateStr, 0, true);
      g := dmy.value.1;
      MatchNumeric(dateStr, dmy.value.0, true);
    }
  }

  /** A digit string of exactly `n` characters at index `i` reads as `n` digits. */
  lemma DigitsAtSlice(s: string, i: nat, t: string)
    requires i + |t| <= |s| && s[i..i + |t|] == t && AllDigits(t)
    ensures DigitsAt(s, i, |t|)
  {
  }

  /** A non-digit at index `k` rules out every digit run that covers it. */
  lemma NoDigitsAcross(s: string, p: nat, n: nat, k: nat)
    requires p <= k < p + n && k < |s| && !IsDigit(s[k])
    ensures !DigitsAt(s, p, n)
  {
    if p + n <= |s| {
      assert s[p..p + n][k - p] == s[k];
    }
  }

  /** `YYYY-MM-DD` with exactly four, two and two digits matches pattern 1 at its start. */
  lemma YmdMatchesAtStart(s: string, y: string, m: string, d: string)
    requires s == y + "-" + m + "-" + d
    requires |y| == 4 && |m| == 2 && |d| == 2 && AllDigits(y) && AllDigits(m) && AllDigits(d)
    ensures Search(s, 0, false) == Some((0, Groups(y, m, d)))
  {
    assert s[0..4] == y && s[4] == '-' && s[5..7] == m && s[7] == '-' && s[8..10] == d;
    DigitsAtSlice(s, 0, y);
    DigitsAtSlice(s, 5, m);
    DigitsAtSlice(s, 8, d);
    assert MatchYmdAt(s, 0) == Some(Groups(y, m, d));
  }

  /** The normaliser reads its own output back: a four-digit first field above
      1900 is a year, so `YYYY-MM-DD` is a fixed point; a first field of 1900 or
      less is taken for a day (no range check), so the fields swap. */
  lemma {:induction false} IsoDateRoundTrip(y: nat, m: nat, d: nat, today: string)
    requires y < 10000 && m < 100 && d < 100
    ensures StandardizeDate(IsoDate(y, m, d), today)
            == if y > 1900 then IsoDate(y, m, d) else IsoDate(d, m, y)
  {
    DecimalShort(y, 4);
    DecimalShort(m, 2);
    DecimalShort(d, 2);
    YmdMatchesAtStart(IsoDate(y, m, d), ZeroPad(y, 4), ZeroPad(m, 2), ZeroPad(d, 2));
  }

  /** Day-first input `DD.MM.YYYY` (any of `.`, `-`, `/` as separators) is
      rendered as `YYYY-MM-DD`: the four-digit group never starts pattern 1
      because nothing follows it. */
  lemma {:induction false} DayFirstInput(d: nat, m: nat, y: nat, sep: char, today: string)
    requires d < 100 && m < 100 && y < 10000 && IsSep(sep, None)
    ensures StandardizeDate(ZeroPad(d, 2) + [sep] + ZeroPad(m, 2) + [sep] + ZeroPad(y, 4), today)
            == IsoDate(y, m, d)
  {
    DecimalShort(y, 4);
    DecimalShort(m, 2);
    DecimalShort(d, 2);
    var ds, ms, ys := ZeroPad(d, 2), ZeroPad(m, 2), ZeroPad(y, 4);
    var s := ds + [sep] + ms + [sep] + ys;
    NoYmdInDmy(s, ds, ms, ys, sep);
    DmyMatchesAtStart(s, ds, ms, ys, sep);
  }

  /** In `DD?MM?YYYY` a separator falls inside every four-character window but
      the last, and nothing follows the last: pattern 1 matches nowhere. */
  lemma NoYmdInDmy(s: string, ds: string, ms: string, ys: string, sep: char)
    requires s == ds + [sep] + ms + [sep] + ys
    requires |ds| == 2 && |ms| == 2 && |ys| == 4 && !IsDigit(sep)
    ensures Search(s, 0, false).None?
  {
    assert |s| == 10 && s[2] == sep && s[5] == sep;
    forall p: nat | p <= |s| ensures MatchYmdAt(s, p).None? {
      if p <= 2 {
        NoDigitsAcross(s, p, 4, 2);
      } else if p <= 5 {
        NoDigitsAcross(s, p, 4, 5);
      }
    }
  }

  /** `DD?MM?YYYY` with separators of pattern 2 matches pattern 2 at its start. */
  lemma DmyMatchesAtStart(s: string, ds: string, ms: string, ys: string, sep: char)
    requires s == ds + [sep] + ms + [sep] + ys
    requires |ds| == 2 && |ms| == 2 && |ys| == 4 && AllDigits(ds) && AllDigits(ms) && AllDigits(ys)
    requires IsSep(sep, None)
    ensures Search(s, 0, true) == Some((0, Groups(ds, ms, ys)))
  {
    assert s[0..2] == ds && s[2] == sep && s[3..5] == ms && s[5] == sep && s[6..10] == ys;
    DigitsAtSlice(s, 0, ds);
    DigitsAtSlice(s, 3, ms);
    DigitsAtSlice(s, 6, ys);
    assert MatchDmyAt(s, 0) == Some(Groups(ds, ms, ys));
  }

  function Pow10(k: nat): nat {
    if k == 0 then 1 else 10 * Pow10(k - 1)
  }

  /** A number below `10^k` prints in at most `k` digits, so padding to `k` gives exactly `k`. */
  lemma {:induction false} DecimalShort(n: nat, k: nat)
    requires 1 <= k && n < Pow10(k)
    ensures |DecimalString(n)| <= k && |ZeroPad(n, k)| == k
  {
    if n >= 10 {
      DecimalShort(n / 10, k - 1);
    }
  }
}
