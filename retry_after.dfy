/** parseRetryAfter (main.js:200-214): how many seconds to wait after a
    rate-limited or failed response. The header is the delay-seconds form
    of `Retry-After` (section 10.2.3 of RFC 9110); the body is scanned for
    the first case-insensitive `after N second(s)`.

    Numbers are exact: a numeral is kept as its digit strings and `floor`
    and `round` are computed from them; `NumeralValue` gives the exact real
    value, and the lemmas below show that the digit arithmetic is
    `Math.floor` and `Math.round` of that value. */
module RetryAfter {
  import opened Options
  import opened Text

  /** A decimal numeral `D+(.D+)?`: integer digits and fraction digits. */
  datatype Numeral = Numeral(whole: string, frac: string)

  predicate WellFormed(n: Numeral) {
    n.whole != [] && AllDigits(n.whole) && AllDigits(n.frac)
  }

  /** The text of a numeral, as it appears in a header or a body. */
  function Show(n: Numeral): (s: string)
    ensures |s| >= |n.whole|
  {
    if n.frac == [] then n.whole else n.whole + "." + n.frac
  }

  /** The exact value of the fraction digits `.d1 d2 ...`. */
  function FracValue(ds: string): (v: real)
    requires AllDigits(ds)
    ensures 0.0 <= v < 1.0
    ensures v >= 0.5 <==> ds != [] && DigitValue(ds[0]) >= 5
  {
    if ds == [] then 0.0 else (DigitValue(ds[0]) as real + FracValue(ds[1..])) / 10.0
  }

  /** The exact value a numeral denotes. */
  function NumeralValue(n: Numeral): real
    requires WellFormed(n)
  {
    DigitsValue(n.whole) as real + FracValue(n.frac)
  }

  /** `Math.floor` of a non-negative numeral. */
  function Floor(n: Numeral): (r: nat)
    requires WellFormed(n)
    ensures r as real <= NumeralValue(n) < r as real + 1.0
  {
    DigitsValue(n.whole)
  }

  /** `Math.round` of a non-negative numeral: halves round up. */
  function Round(n: Numeral): (r: nat)
    requires WellFormed(n)
    ensures r as real <= NumeralValue(n) + 0.5 < r as real + 1.0
  {
    DigitsValue(n.whole) + if n.frac != [] && DigitValue(n.frac[0]) >= 5 then 1 else 0
  }

  /** The end of the run of digits that starts at `i`. */
  function DigitRun(s: string, i: nat): (j: nat)
    requires i <= |s|
    ensures i <= j <= |s|
    ensures forall k :: i <= k < j ==> IsDigit(s[k])
    ensures j < |s| ==> !IsDigit(s[j])
    decreases |s| - i
  {
    if i < |s| && IsDigit(s[i]) then DigitRun(s, i + 1) else i
  }

  /** The regular-expression fragment `[0-9]+(?:\.[0-9]+)?` at position
      `i`: the numeral it matches (greedily) and where the match ends. */
  function ScanNumeral(s: string, i: nat): (r: Option<(Numeral, nat)>)
    requires i <= |s|
    ensures r.Some? ==> WellFormed(r.value.0) && i < r.value.1 <= |s|
    ensures r.None? <==> (i == |s| || !IsDigit(s[i]))
  {
    var j := DigitRun(s, i);
    if j == i then None
    else if j + 1 < |s| && s[j] == '.' && IsDigit(s[j + 1]) then
      var k := DigitRun(s, j + 1);
      Some((Numeral(s[i..j], s[j + 1..k]), k))
    else
      Some((Numeral(s[i..j], []), j))
  }

  /** The scanned text is the numeral printed back. */
  lemma ScanNumeralShows(s: string, i: nat)
    requires i <= |s| && ScanNumeral(s, i).Some?
    ensures var (n, end) := ScanNumeral(s, i).value; s[i..end] == Show(n)
  {
    var j := DigitRun(s, i);
    if j + 1 < |s| && s[j] == '.' && IsDigit(s[j + 1]) {
      var k := DigitRun(s, j + 1);
      assert s[i..k] == s[i..j] + "." + s[j + 1..k];
    }
  }

  /** The first position at or after `i` that is not white space. */
  function SkipSpaces(s: string, i: nat): (j: nat)
    requires i <= |s|
    ensures i <= j <= |s|
    ensures forall k :: i <= k < j ==> IsSpace(s[k])
    ensures j < |s| ==> !IsSpace(s[j])
    decreases |s| - i
  {
    if i < |s| && IsSpace(s[i]) then SkipSpaces(s, i + 1) else i
  }

  /** `Number(h)` for a header value: an optional sign and a numeral, and
      nothing else. Gives the sign (true for `-`) and the numeral, or None
      for text `Number` turns into NaN. */
  function ParseHeaderNumber(h: string): (r: Option<(bool, Numeral)>)
    ensures r.Some? ==> WellFormed(r.value.1)
    ensures r.Some? ==> h == (if r.value.0 then "-" else []) + Show(r.value.1)
                        || h == "+" + Show(r.value.1)
  {
    var start := if h != [] && (h[0] == '-' || h[0] == '+') then 1 else 0;
    match ScanNumeral(h, start)
    case Some((n, end)) =>
      if end == |h| then
        ScanNumeralShows(h, start);
        SignedShape(h, start, n);
        Some((start == 1 && h[0] == '-', n))
      else None
    case None => None
  }

  /** A header whose text after the optional sign is a printed numeral
      is that sign followed by the numeral. */
  lemma SignedShape(h: string, start: nat, n: Numeral)
    requires start <= |h| && h[start..] == Show(n)
    requires start == (if h != [] && (h[0] == '-' || h[0] == '+') then 1 else 0)
    ensures h == (if start == 1 && h[0] == '-' then "-" else []) + Show(n)
            || h == "+" + Show(n)
  {
    assert h == h[..start] + h[start..];
  }

  /** `Math.max(1, x)`. */
  function AtLeastOne(x: int): (r: nat)
    ensures r >= 1 && r >= x && (r == 1 || r == x)
  {
    if x < 1 then 1 else x
  }

  predicate IsZero(n: Numeral)
    requires WellFormed(n)
  {
    DigitsValue(n.whole) == 0 && FracValue(n.frac) == 0.0
  }

  /** The header branch of parseRetryAfter (main.js:201-205): a present,
      non-empty header whose number is not negative gives
      `max(1, floor(n))`; anything else gives None and the body is tried.
      (`-0` is not negative, as in JavaScript.) */
  function HeaderSeconds(header: Option<string>): (r: Option<nat>)
    ensures r.Some? ==> r.value >= 1
  {
    match header
    case None => None
    case Some(h) =>
      if h == [] then None
      else match ParseHeaderNumber(h)
        case None => None
        case Some((negative, n)) =>
          if negative && !IsZero(n) then None
          else Some(AtLeastOne(Floor(n)))
  }

  /** The regular expression `after\s+([0-9]+(?:\.[0-9]+)?)\s*seconds?` with
      the `/i` flag, anchored at position `i`; gives the captured numeral.
      The greedy quantifiers never need to backtrack here: each of them
      stops before a character that the next part cannot start with. */
  function PhraseAt(text: string, i: nat): (r: Option<Numeral>)
    requires i <= |text|
    ensures r.Some? ==> WellFormed(r.value)
  {
    if !MatchesAt(text, i, "after") then None
    else
      var j := SkipSpaces(text, i + 5);
      if j == i + 5 then None
      else match ScanNumeral(text, j)
        case None => None
        case Some((n, k)) =>
          var m := SkipSpaces(text, k);
          if MatchesAt(text, m, "second") then Some(n) else None
  }

  /** The anchored match at every start position of `text`, the end of
      the text included: a regular-expression search tries them in turn. */
  function Phrases(text: string): (t: seq<Option<Numeral>>)
    ensures |t| == |text| + 1
  {
    seq(|text| + 1, q requires 0 <= q <= |text| => PhraseAt(text, q))
  }

  /** No entry of `t` in `[i, p)` holds a match. */
  ghost predicate NoMatchBetween(t: seq<Option<Numeral>>, i: nat, p: nat)
    requires i <= p <= |t|
  {
    forall q :: i <= q < p ==> t[q].None?
  }

  /** The leftmost entry at or after `i` holding a match, as
      `String.prototype.match` reports the leftmost match. */
  function FirstMatchFrom(t: seq<Option<Numeral>>, i: nat): (r: Option<nat>)
    requires i <= |t|
    ensures r.Some? ==> i <= r.value < |t| && t[r.value].Some? && NoMatchBetween(t, i, r.value)
    ensures r.None? ==> NoMatchBetween(t, i, |t|)
    decreases |t| - i
  {
    if i == |t| then None
    else if t[i].Some? then Some(i)
    else FirstMatchFrom(t, i + 1)
  }

  /** The body branch of parseRetryAfter (main.js:206-212): an empty body is
      skipped; otherwise the first phrase gives `max(1, round(n))`. */
  function BodySeconds(body: string): (r: Option<nat>)
    ensures r.Some? ==> r.value >= 1
  {
    if body == [] then None
    else
      var t := Phrases(body);
      match FirstMatchFrom(t, 0)
      case None => None
      case Some(p) => Some(AtLeastOne(Round(t[p].value)))
  }

  /** parseRetryAfter (main.js:200-214): header, else body, else 1. */
  function RetryAfterSeconds(header: Option<string>, body: string): (r: nat)
    ensures r >= 1
  {
    match HeaderSeconds(header)
    case Some(w) => w
    case None =>
      match BodySeconds(body)
      case Some(w) => w
      case None => 1
  }

  // ----- What parseRetryAfter computes, stated on the exact values -----

  /** A character that can occur in a numeric header the model reads. */
  predicate NumericChar(c: char) {
    IsDigit(c) || c == '.' || c == '+' || c == '-'
  }

  /** A maximal digit run is found where it really ends. */
  lemma DigitRunEndsAt(s: string, i: nat, j: nat)
    requires i <= j <= |s|
    requires forall k :: i <= k < j ==> IsDigit(s[k])
    requires j == |s| || !IsDigit(s[j])
    ensures DigitRun(s, i) == j
  {
  }

  /** A printed numeral starts with a digit. */
  lemma ShowStartsWithDigit(n: Numeral)
    requires WellFormed(n)
    ensures |Show(n)| > 0 && IsDigit(Show(n)[0])
  {
    assert Show(n)[0] == n.whole[0];
  }

  /** Every character of a printed numeral can occur in a number. */
  lemma ShowIsNumeric(n: Numeral)
    requires WellFormed(n)
    ensures forall k :: 0 <= k < |Show(n)| ==> NumericChar(Show(n)[k])
  {
  }

  /** Where the parts of a numeral printed at `i` lie. */
  lemma ShowSplit(s: string, i: nat, n: Numeral)
    requires i + |Show(n)| <= |s| && s[i..i + |Show(n)|] == Show(n)
    ensures i + |n.whole| <= |s| && s[i..i + |n.whole|] == n.whole
    ensures n.frac == [] ==> |Show(n)| == |n.whole|
    ensures n.frac != [] ==> |Show(n)| == |n.whole| + 1 + |n.frac|
                             && s[i + |n.whole|] == '.'
                             && s[i + |n.whole| + 1..i + |Show(n)|] == n.frac
  {
    var e := i + |Show(n)|;
    var w := i + |n.whole|;
    assert s[i..w] == s[i..e][..|n.whole|];
    if n.frac != [] {
      assert s[w] == s[i..e][|n.whole|];
      assert s[w + 1..e] == s[i..e][|n.whole| + 1..];
    }
  }

  /** The digits of `d`, copied at `i`, are digits of `s`. */
  lemma DigitsAt(s: string, i: nat, d: string)
    requires i + |d| <= |s| && s[i..i + |d|] == d && AllDigits(d)
    ensures forall k :: i <= k < i + |d| ==> IsDigit(s[k])
  {
    forall k | i <= k < i + |d| ensures IsDigit(s[k]) {
      assert s[k] == d[k - i];
    }
  }

  /** The scanner reads back a numeral that is printed at position `i` and
      followed by neither a digit nor a point. */
  lemma ScanShown(s: string, i: nat, n: Numeral)
    requires WellFormed(n)
    requires i + |Show(n)| <= |s| && s[i..i + |Show(n)|] == Show(n)
    requires i + |Show(n)| == |s| || (!IsDigit(s[i + |Show(n)|]) && s[i + |Show(n)|] != '.')
    ensures ScanNumeral(s, i) == Some((n, i + |Show(n)|))
  {
    ShowSplit(s, i, n);
    var w := i + |n.whole|;
    DigitsAt(s, i, n.whole);
    DigitRunEndsAt(s, i, w);
    if n.frac == [] {
      ScanSteps(s, i, w, w);
    } else {
      ScanFraction(s, i, n);
    }
  }

  /** The fraction case of ScanShown. */
  lemma ScanFraction(s: string, i: nat, n: Numeral)
    requires WellFormed(n) && n.frac != []
    requires i + |n.whole| + 1 + |n.frac| <= |s|
    requires DigitRun(s, i) == i + |n.whole| && s[i..i + |n.whole|] == n.whole
    requires s[i + |n.whole|] == '.'
    requires s[i + |n.whole| + 1..i + |n.whole| + 1 + |n.frac|] == n.frac
    requires var e := i + |n.whole| + 1 + |n.frac|; e == |s| || !IsDigit(s[e])
    ensures ScanNumeral(s, i) == Some((n, i + |n.whole| + 1 + |n.frac|))
  {
    var w := i + |n.whole|;
    var e := w + 1 + |n.frac|;
    DigitsAt(s, w + 1, n.frac);
    DigitRunEndsAt(s, w + 1, e);
    ScanSteps(s, i, w, e);
  }

  /** ScanNumeral follows its steps: a digit run, then, when a point and a
      digit come next, a second digit run. */
  lemma ScanSteps(s: string, i: nat, w: nat, e: nat)
    requires i < w <= e <= |s| && DigitRun(s, i) == w
    requires w == e ==> w + 1 >= |s| || s[w] != '.' || !IsDigit(s[w + 1])
    requires w < e ==> w + 1 < |s| && s[w] == '.' && IsDigit(s[w + 1]) && DigitRun(s, w + 1) == e
    ensures ScanNumeral(s, i) == Some((Numeral(s[i..w], if w == e then [] else s[w + 1..e]), e))
  {
  }

  /** A header holding a non-negative number (optionally signed, `-0`
      included) waits `max(1, floor(n))` seconds, whatever the body says. */
  lemma HeaderGivesFloor(h: string, n: Numeral, body: string)
    requires WellFormed(n)
    requires h == Show(n) || h == "+" + Show(n) || (h == "-" + Show(n) && NumeralValue(n) == 0.0)
    ensures RetryAfterSeconds(Some(h), body) == AtLeastOne(NumeralValue(n).Floor)
  {
    var start := if h == Show(n) then 0 else 1;
    ParsesShown(h, start, n);
    assert Floor(n) == NumeralValue(n).Floor;
    assert HeaderSeconds(Some(h)) == Some(AtLeastOne(Floor(n)));
  }

  /** A header made of a sign (or none) and a shown numeral parses back to
      that numeral. */
  lemma ParsesShown(h: string, start: nat, n: Numeral)
    requires WellFormed(n) && start <= 1
    requires start == 0 ==> h == Show(n)
    requires start == 1 ==> h == "+" + Show(n) || h == "-" + Show(n)
    ensures ParseHeaderNumber(h) == Some((start == 1 && h[0] == '-', n))
  {
    ShowStartsWithDigit(n);
    assert h[start..] == Show(n);
    assert start == 0 ==> IsDigit(h[0]);
    ScanShown(h, start, n);
    ParseSteps(h, start, n);
  }

  /** ParseHeaderNumber follows its steps: the optional sign, then a
      numeral that runs to the end of the header. */
  lemma ParseSteps(h: string, start: nat, n: Numeral)
    requires start == (if h != [] && (h[0] == '-' || h[0] == '+') then 1 else 0)
    requires start <= |h| && ScanNumeral(h, start) == Some((n, |h|))
    ensures ParseHeaderNumber(h) == Some((start == 1 && h[0] == '-', n))
  {
  }

  lemma NegativeHeaderFallsThrough(n: Numeral, body: string)
    requires WellFormed(n) && NumeralValue(n) > 0.0
    ensures RetryAfterSeconds(Some("-" + Show(n)), body) == RetryAfterSeconds(None, body)
  {
    ParsesShown("-" + Show(n), 1, n);
  }

  /** A missing or empty header, or one holding any character that cannot
      occur in a number (an HTTP-date such as `Wed, 21 Oct 2015 07:28:00
      GMT`, say), falls through to the body. */
  lemma NonNumericHeaderFallsThrough(header: Option<string>, body: string)
    requires header.None? || header.value == []
             || exists i :: 0 <= i < |header.value| && !NumericChar(header.value[i])
    ensures HeaderSeconds(header).None?
    ensures RetryAfterSeconds(header, body) == RetryAfterSeconds(None, body)
  {
    if header.Some? && header.value != [] {
      NonNumericDoesNotParse(header.value);
    }
  }

  /** Every character of a parsed header can occur in a number. */
  lemma NonNumericDoesNotParse(h: string)
    requires exists i :: 0 <= i < |h| && !NumericChar(h[i])
    ensures ParseHeaderNumber(h).None?
  {
    var r := ParseHeaderNumber(h);
    if r.Some? {
      ShowIsNumeric(r.value.1);
    }
  }


  /** Without a usable header, the first phrase `after N second(s)` in the
      body decides: `max(1, round(N))`, halves rounding up. */
  lemma BodyGivesRound(header: Option<string>, body: string, p: nat, n: Numeral)
    requires HeaderSeconds(header).None?
    requires p <= |body| && PhraseAt(body, p) == Some(n)
    requires forall q :: 0 <= q < p ==> PhraseAt(body, q).None?
    ensures WellFormed(n)
    ensures RetryAfterSeconds(header, body) == AtLeastOne((NumeralValue(n) + 0.5).Floor)
  {
    var t := Phrases(body);
    NoMatchBefore(body, p);
    assert t[p] == Some(n);
    FirstMatchIs(t, p);
    assert BodySeconds(body) == Some(AtLeastOne(Round(n)));
    RoundIsFloor(n);
  }

  /** The table of anchored matches has none before `p` when the text has
      none there. */
  lemma NoMatchBefore(body: string, p: nat)
    requires p <= |body| + 1
    requires forall q :: 0 <= q < p && q <= |body| ==> PhraseAt(body, q).None?
    ensures NoMatchBetween(Phrases(body), 0, p)
  {
    var t := Phrases(body);
    forall q | 0 <= q < p ensures t[q].None? {
      assert t[q] == PhraseAt(body, q);
    }
  }

  /** A match with none before it is the one the search finds. */
  lemma FirstMatchIs(t: seq<Option<Numeral>>, p: nat)
    requires p < |t| && t[p].Some? && NoMatchBetween(t, 0, p)
    ensures FirstMatchFrom(t, 0) == Some(p)
  {
    var r := FirstMatchFrom(t, 0);
    assert r.Some?;
    assert r.value <= p;
  }

  /** `Math.round` on a non-negative numeral is the floor of its value plus
      one half. */
  lemma RoundIsFloor(n: Numeral)
    requires WellFormed(n)
    ensures Round(n) == (NumeralValue(n) + 0.5).Floor
  {
  }

  /** With no usable header and no phrase in the body, the wait is 1. */
  lemma NoHintGivesOne(header: Option<string>, body: string)
    requires HeaderSeconds(header).None?
    requires forall q :: 0 <= q <= |body| ==> PhraseAt(body, q).None?
    ensures RetryAfterSeconds(header, body) == 1
  {
    NoMatchBefore(body, |body| + 1);
  }

  /** A printed phrase `after N seconds`. */
  function Phrase(n: Numeral): (t: string)
    ensures |t| == |Show(n)| + 14
  {
    "after " + Show(n) + " seconds"
  }

  lemma PhraseEnd(n: Numeral)
    requires WellFormed(n)
    ensures MatchesAt(Phrase(n), 7 + |Show(n)|, "second")
  {
    var t := Phrase(n);
    var e := 6 + |Show(n)|;
    var tail := t[e..];
    assert tail == " seconds";
    assert tail[1..7] == "second";
    assert t[e + 1..e + 7] == tail[1..7];
    MatchesLiteral(t, e + 1, "second");
  }

  /** The phrase scanner reads back the number of a printed phrase
      `after N seconds`. */
  lemma PhraseRoundTrip(n: Numeral)
    requires WellFormed(n)
    ensures PhraseAt(Phrase(n), 0) == Some(n)
  {
    PhraseLaidOut(n);
    PhraseAtComplete(Phrase(n), 0, 6, 7 + |Show(n)|, n);
  }

  /** A printed phrase has the layout of the pattern. */
  lemma PhraseLaidOut(n: Numeral)
    requires WellFormed(n)
    ensures PhraseLayout(Phrase(n), 0, 6, 7 + |Show(n)|, n)
  {
    var t := Phrase(n);
    var e := 6 + |Show(n)|;
    assert t[..5] == "after";
    MatchesLiteral(t, 0, "after");
    assert AllSpaces(t, 5, 6) by {
      assert t[5] == ' ';
    }
    assert t[6..e] == Show(n);
    assert AllSpaces(t, e, e + 1) by {
      assert t[e] == ' ';
    }
    PhraseEnd(n);
  }

  // ----- PhraseAt is the body pattern -----

  /** Every character of `s[a..b]` is white space (`\s`). */
  predicate AllSpaces(s: string, a: nat, b: nat)
    requires a <= b <= |s|
  {
    forall k :: a <= k < b ==> IsSpace(s[k])
  }

  /** What a match of `after\s+([0-9]+(?:\.[0-9]+)?)\s*seconds?` at `i`
      looks like: `after` in any case, at least one white-space character,
      the numeral `n` printed at `j`, white space up to `m`, and `second`
      in any case at `m`. */
  predicate PhraseLayout(text: string, i: nat, j: nat, m: nat, n: Numeral) {
    && WellFormed(n)
    && i + 5 < j && j + |Show(n)| <= m <= |text|
    && MatchesAt(text, i, "after")
    && AllSpaces(text, i + 5, j)
    && text[j..j + |Show(n)|] == Show(n)
    && AllSpaces(text, j + |Show(n)|, m)
    && MatchesAt(text, m, "second")
  }

  /** White space that really ends at `b` is skipped up to `b`. */
  lemma SkipSpacesEndsAt(s: string, a: nat, b: nat)
    requires a <= b <= |s| && AllSpaces(s, a, b)
    requires b == |s| || !IsSpace(s[b])
    ensures SkipSpaces(s, a) == b
    decreases b - a
  {
    if a < b {
      SkipSpacesEndsAt(s, a + 1, b);
    }
  }

  /** Every match PhraseAt reports has the layout of the pattern. */
  lemma PhraseAtSound(text: string, i: nat, n: Numeral)
    requires i <= |text| && PhraseAt(text, i) == Some(n)
    ensures exists j, m :: PhraseLayout(text, i, j, m, n)
  {
    var j := SkipSpaces(text, i + 5);
    var (n', k) := ScanNumeral(text, j).value;
    ScanNumeralShows(text, j);
    var m := SkipSpaces(text, k);
    assert PhraseLayout(text, i, j, m, n);
  }

  /** PhraseAt follows its steps: `after`, white space, numeral, white
      space, `second`. */
  lemma PhraseAtSteps(text: string, i: nat, j: nat, e: nat, m: nat, n: Numeral)
    requires i + 5 <= |text| && MatchesAt(text, i, "after")
    requires SkipSpaces(text, i + 5) == j && j != i + 5
    requires j <= |text| && ScanNumeral(text, j) == Some((n, e))
    requires e <= |text| && SkipSpaces(text, e) == m && MatchesAt(text, m, "second")
    ensures PhraseAt(text, i) == Some(n)
  {
  }

  /** What may follow the numeral in a match: white space or `s`, never a
      digit or a point. */
  lemma AfterNumeral(text: string, e: nat, m: nat)
    requires e <= m <= |text| && AllSpaces(text, e, m) && MatchesAt(text, m, "second")
    ensures e < |text| ==> !IsDigit(text[e]) && text[e] != '.'
    ensures !IsSpace(text[m])
  {
    assert ToLowerAscii(text[m + 0]) == "second"[0] == 's';
    if e < m {
      assert IsSpace(text[e]);
    }
  }

  /** Every text laid out as the pattern, at any position, in any case and
      with any white space, is matched and captures its numeral. */
  lemma PhraseAtComplete(text: string, i: nat, j: nat, m: nat, n: Numeral)
    requires PhraseLayout(text, i, j, m, n)
    ensures PhraseAt(text, i) == Some(n)
  {
    var e := j + |Show(n)|;
    ShowStartsWithDigit(n);
    assert text[j] == Show(n)[0];
    SkipSpacesEndsAt(text, i + 5, j);
    AfterNumeral(text, e, m);
    ScanShown(text, j, n);
    SkipSpacesEndsAt(text, e, m);
    PhraseAtSteps(text, i, j, e, m, n);
  }

  /** PhraseAt matches exactly the texts laid out as the pattern. */
  lemma PhraseAtMatches(text: string, i: nat, n: Numeral)
    requires i <= |text|
    ensures PhraseAt(text, i) == Some(n) <==> exists j, m :: PhraseLayout(text, i, j, m, n)
  {
    if PhraseAt(text, i) == Some(n) {
      PhraseAtSound(text, i, n);
    }
    if exists j, m :: PhraseLayout(text, i, j, m, n) {
      var j, m :| PhraseLayout(text, i, j, m, n);
      PhraseAtComplete(text, i, j, m, n);
    }
  }
}
