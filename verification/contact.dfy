/**
 * Email and phone extraction: the first match of a fixed regular
 * expression anywhere in the text. Each pattern is written out as the
 * search Python's backtracking matcher performs (leftmost start, greedy
 * repetitions tried longest first), next to a declarative description of
 * what the pattern accepts.
 */
module Contact {
  import opened Strings

  // ------------------------------------------------------------------ email
  // \b[A-Za-z0-9._%+-]+@[A-Za-z0-9.-]+\.[A-Z|a-z]{2,}\b

  predicate IsLocalChar(c: char) {
    IsLetter(c) || IsDigit(c) || c == '.' || c == '_' || c == '%' || c == '+' || c == '-'
  }

  predicate IsDomainChar(c: char) { IsLetter(c) || IsDigit(c) || c == '.' || c == '-' }

  /** `[A-Z|a-z]`: inside a character class the bar is a literal bar. */
  predicate IsSuffixChar(c: char) { IsLetter(c) || c == '|' }

  /** `\b` at position `k`: a word character on exactly one side. */
  predicate AtBoundary(s: string, k: nat)
    requires k <= |s|
  {
    (k > 0 && IsWordChar(s[k - 1])) != (k < |s| && IsWordChar(s[k]))
  }

  /** End of the run of characters satisfying `p` that starts at `k`. */
  function RunEnd(s: string, k: nat, p: char -> bool): (e: nat)
    requires k <= |s|
    ensures k <= e <= |s|
    ensures forall j :: k <= j < e ==> p(s[j])
    ensures e < |s| ==> !p(s[e])
    decreases |s| - k
  {
    if k < |s| && p(s[k]) then RunEnd(s, k + 1, p) else k
  }

  /** Declarative reading of the email pattern: `s[i..e]` is a local part
      ending before the `'@'` at `a`, a domain ending before the `'.'` at
      `q`, and a suffix of at least two letters, with word boundaries at
      both ends. */
  predicate EmailShape(s: string, i: nat, a: nat, q: nat, e: nat) {
    i < a && a + 1 < q && q + 2 < e && e <= |s| &&
    AtBoundary(s, i) && AtBoundary(s, e) &&
    (forall j :: i <= j < a ==> IsLocalChar(s[j])) && s[a] == '@' &&
    (forall j :: a < j < q ==> IsDomainChar(s[j])) && s[q] == '.' &&
    (forall j :: q < j < e ==> IsSuffixChar(s[j]))
  }

  ghost predicate MatchesEmail(s: string, i: nat, e: nat) {
    exists a: nat, q: nat :: EmailShape(s, i, a, q, e)
  }

  /** The largest `e` in `[lo, hi]` at a word boundary: the greedy suffix
      giving characters back until `\b` holds. */
  function LastBoundary(s: string, lo: nat, hi: nat): (r: Option<nat>)
    requires hi <= |s|
    ensures r.Some? ==> lo <= r.value <= hi && AtBoundary(s, r.value)
    ensures r.None? ==> forall e :: lo <= e <= hi ==> !AtBoundary(s, e)
    ensures r.Some? ==> forall e :: r.value < e <= hi ==> !AtBoundary(s, e)
    decreases hi
  {
    if hi < lo then None
    else if AtBoundary(s, hi) then Some(hi)
    else if hi == lo then None
    else LastBoundary(s, lo, hi - 1)
  }

  /** Where a match ends when the `\.` of the pattern is the `'.'` at `q`. */
  function SuffixEnd(s: string, q: nat): (r: Option<nat>)
    requires q < |s|
    ensures r.Some? ==> q + 2 < r.value <= |s| && AtBoundary(s, r.value) &&
                        forall j :: q < j < r.value ==> IsSuffixChar(s[j])
  {
    LastBoundary(s, q + 3, RunEnd(s, q + 1, IsSuffixChar))
  }

  /** The greedy domain giving characters back: try the `'.'` positions
      below `hi` from the right, down to `lo`; the result is the `'.'` used
      and where the match ends. */
  function DotSearch(s: string, lo: nat, hi: nat): (r: Option<(nat, nat)>)
    requires hi <= |s|
    ensures r.Some? ==> lo <= r.value.0 < hi && s[r.value.0] == '.' &&
                        r.value.0 + 2 < r.value.1 <= |s| && AtBoundary(s, r.value.1) &&
                        forall j :: r.value.0 < j < r.value.1 ==> IsSuffixChar(s[j])
    decreases hi
  {
    if hi <= lo then None
    else
      var q := hi - 1;
      var found := if s[q] == '.' then SuffixEnd(s, q) else None;
      if found.Some? then Some((q, found.value)) else DotSearch(s, lo, q)
  }

  /** Where the email match starting at `i` ends, if there is one. */
  function EmailEndAt(s: string, i: nat): (r: Option<nat>)
    requires i <= |s|
    ensures r.Some? ==> MatchesEmail(s, i, r.value)
  {
    if !AtBoundary(s, i) then None
    else
      var a := RunEnd(s, i, IsLocalChar);
      if a == i || a == |s| || s[a] != '@' then None
      else
        var d := RunEnd(s, a + 1, IsDomainChar);
        var r := DotSearch(s, a + 2, d);
        if r.None? then None
        else
          assert EmailShape(s, i, a, r.value.0, r.value.1);
          Some(r.value.1)
  }

  /** The leftmost match starting at or after `i`, as its bounds. */
  function FirstEmail(s: string, i: nat): (m: Option<(nat, nat)>)
    requires i <= |s|
    ensures m.Some? ==> i <= m.value.0 <= m.value.1 <= |s| && MatchesEmail(s, m.value.0, m.value.1)
    ensures m.Some? ==> EmailEndAt(s, m.value.0) == Some(m.value.1)
    decreases |s| - i
  {
    match EmailEndAt(s, i)
    case Some(e) => Some((i, e))
    case None => if i == |s| then None else FirstEmail(s, i + 1)
  }

  /** `extract_email`: the first element of `re.findall`, or `""`. */
  function ExtractEmail(text: string): string {
    match FirstEmail(text, 0)
    case Some((i, e)) => text[i..e]
    case None => ""
  }

  /** Where the `'.'` at `q` can end a match at `e`, the dot search from
      the right finds a match ending at `e` or later. */
  lemma {:induction false} DotSearchLongest(s: string, lo: nat, hi: nat, q: nat, e: nat)
    requires hi <= |s| && lo <= q < hi && s[q] == '.'
    requires q + 2 < e <= |s| && AtBoundary(s, e) && forall j :: q < j < e ==> IsSuffixChar(s[j])
    ensures DotSearch(s, lo, hi).Some? && e <= DotSearch(s, lo, hi).value.1
    decreases hi
  {
    var top := hi - 1;
    if top == q {
      SuffixEndLongest(s, q, e);
    } else if s[top] == '.' && SuffixEnd(s, top).Some? {
      assert !IsSuffixChar(s[top]);
      assert e <= top;
    } else {
      DotSearchLongest(s, lo, top, q, e);
    }
  }

  /** The suffix after the `'.'` at `q` gives back characters only down to
      the last word boundary. */
  lemma SuffixEndLongest(s: string, q: nat, e: nat)
    requires q < |s| && s[q] == '.'
    requires q + 2 < e <= |s| && AtBoundary(s, e) && forall j :: q < j < e ==> IsSuffixChar(s[j])
    ensures SuffixEnd(s, q).Some? && e <= SuffixEnd(s, q).value
  {
    RunPast(s, q + 1, IsSuffixChar, e - 1);
  }

  /** The search misses no match, and returns the longest one at `i`:
      Python's greedy repetitions give characters back only as far as they
      must. */
  lemma EmailEndAtLongest(s: string, i: nat, e: nat)
    requires MatchesEmail(s, i, e)
    ensures EmailEndAt(s, i).Some? && e <= EmailEndAt(s, i).value
  {
    var a: nat, q: nat :| EmailShape(s, i, a, q, e);
    ShapeLongest(s, i, a, q, e);
  }

  lemma ShapeLongest(s: string, i: nat, a: nat, q: nat, e: nat)
    requires EmailShape(s, i, a, q, e)
    ensures EmailEndAt(s, i).Some? && e <= EmailEndAt(s, i).value
  {
    RunPast(s, i, IsLocalChar, a - 1);
    assert RunEnd(s, i, IsLocalChar) == a;
    assert IsDomainChar(s[q]);
    var d := RunEnd(s, a + 1, IsDomainChar);
    RunPast(s, a + 1, IsDomainChar, q);
    DotSearchLongest(s, a + 2, d, q, e);
    EmailEndAtDot(s, i, a);
  }

  /** With its local part ending at the `'@'` at `a`, the search at `i`
      ends where the dot search over the domain run after `a` ends. */
  lemma EmailEndAtDot(s: string, i: nat, a: nat)
    requires i < a < |s| && AtBoundary(s, i) && RunEnd(s, i, IsLocalChar) == a && s[a] == '@'
    requires DotSearch(s, a + 2, RunEnd(s, a + 1, IsDomainChar)).Some?
    ensures EmailEndAt(s, i) == Some(DotSearch(s, a + 2, RunEnd(s, a + 1, IsDomainChar)).value.1)
  {
    assert !(a == i || a == |s| || s[a] != '@');
  }

  /** A run covering `[k, m]` ends after `m`. */
  lemma RunPast(s: string, k: nat, p: char -> bool, m: nat)
    requires k <= m < |s| && forall j :: k <= j <= m ==> p(s[j])
    ensures m < RunEnd(s, k, p)
  {
  }

  /** No match starting at `i` ends after `e`. */
  ghost predicate LongestAt(s: string, i: nat, e: nat) {
    forall e' :: e < e' <= |s| ==> !MatchesEmail(s, i, e')
  }

  /** The leftmost match is reported in full: no match at its start is
      longer. */
  lemma FirstEmailIsLongest(s: string, i: nat)
    requires i <= |s| && FirstEmail(s, i).Some?
    ensures LongestAt(s, FirstEmail(s, i).value.0, FirstEmail(s, i).value.1)
  {
    var (k, e) := FirstEmail(s, i).value;
    forall e' | e < e' <= |s| ensures !MatchesEmail(s, k, e') {
      if MatchesEmail(s, k, e') { EmailEndAtLongest(s, k, e'); }
    }
  }

  lemma NoMatchAt(s: string, i: nat)
    requires i <= |s| && EmailEndAt(s, i).None?
    ensures forall e :: i <= e <= |s| ==> !MatchesEmail(s, i, e)
  {
    forall e | i <= e <= |s| ensures !MatchesEmail(s, i, e) {
      if MatchesEmail(s, i, e) { EmailEndAtLongest(s, i, e); }
    }
  }

  /** No email match starts in `[lo, hi)`. */
  ghost predicate NoEmailStartsIn(s: string, lo: nat, hi: nat) {
    forall k, e :: lo <= k < hi && k <= e <= |s| ==> !MatchesEmail(s, k, e)
  }

  lemma {:induction false} FirstEmailIsLeftmost(s: string, i: nat)
    requires i <= |s|
    ensures FirstEmail(s, i).None? <==> NoEmailStartsIn(s, i, |s| + 1)
    ensures FirstEmail(s, i).Some? ==> NoEmailStartsIn(s, i, FirstEmail(s, i).value.0)
    decreases |s| - i
  {
    if EmailEndAt(s, i).None? {
      NoMatchAt(s, i);
      if i < |s| {
        FirstEmailIsLeftmost(s, i + 1);
      }
    }
  }

  /** An email address as the pattern accepts it: one `'@'`, and a `'.'`
      after it followed by at least two suffix characters. */
  ghost predicate IsEmailText(r: string) {
    exists a: nat, q: nat :: EmailParts(r, a, q)
  }

  /** `r` is a local part, the `'@'` at `a`, a domain, the `'.'` at `q` and
      a suffix of at least two characters. */
  predicate EmailParts(r: string, a: nat, q: nat) {
    0 < a && a + 1 < q && q + 2 < |r| &&
    (forall j :: 0 <= j < a ==> IsLocalChar(r[j])) && r[a] == '@' &&
    (forall j :: a < j < q ==> IsDomainChar(r[j])) && r[q] == '.' &&
    (forall j :: q < j < |r| ==> IsSuffixChar(r[j]))
  }

  /** `extract_email` never fails: it gives `""` exactly when the pattern
      matches nowhere, and otherwise the longest match at the leftmost
      start, a piece of the text with a single `'@'` and a `'.'` after it. */
  lemma ExtractEmailSpec(text: string)
    ensures ExtractEmail(text) == "" <==> NoEmailStartsIn(text, 0, |text| + 1)
    ensures ExtractEmail(text) != "" ==>
              IsEmailText(ExtractEmail(text)) &&
              exists i, e :: 0 <= i <= e <= |text| && MatchesEmail(text, i, e) && ExtractEmail(text) == text[i..e] &&
                NoEmailStartsIn(text, 0, i) && LongestAt(text, i, e)
  {
    FirstEmailIsLeftmost(text, 0);
    var m := FirstEmail(text, 0);
    if m.Some? {
      FirstEmailIsLongest(text, 0);
      var (i, e) := m.value;
      var a: nat, q: nat :| EmailShape(text, i, a, q, e);
      assert text[i..e][a - i] == '@';
      MatchIsEmailText(text, i, e);
    }
  }

  lemma MatchIsEmailText(s: string, i: nat, e: nat)
    requires i <= e <= |s| && MatchesEmail(s, i, e)
    ensures IsEmailText(s[i..e])
  {
    var r := s[i..e];
    var a: nat, q: nat :| EmailShape(s, i, a, q, e);
    assert forall j :: 0 <= j < |r| ==> r[j] == s[i + j];
    assert 0 < a - i && a - i + 1 < q - i && q - i + 2 < |r|;
    assert r[a - i] == '@' && r[q - i] == '.';
    assert forall j :: 0 <= j < a - i ==> IsLocalChar(r[j]);
    assert forall j :: a - i < j < q - i ==> IsDomainChar(r[j]);
    assert forall j :: q - i < j < |r| ==> IsSuffixChar(r[j]);    assert EmailParts(r, a - i, q - i);
  }

  /** An accepted address holds exactly one `'@'`: no class of the pattern
      admits one. */
  lemma EmailHasOneAt(r: string)
    requires IsEmailText(r)
    ensures exists a :: 0 <= a < |r| && r[a] == '@' &&
              (forall j :: 0 <= j < |r| && j != a ==> r[j] != '@') &&
              exists q :: a < q < |r| && r[q] == '.'
  {
    var a: nat, q: nat :| EmailParts(r, a, q);
    forall j | 0 <= j < |r| && j != a ensures r[j] != '@' {
      if j < a { assert IsLocalChar(r[j]); }
      else if j < q { assert IsDomainChar(r[j]); }
      else if j > q { assert IsSuffixChar(r[j]); }
    }
    assert a < q < |r| && r[q] == '.';
  }

  // ------------------------------------------------------------------ phone
  // 1. (\+\d{1,3}[-.\s]?)?\(?\d{3}\)?[-.\s]?\d{3}[-.\s]?\d{4}
  // 2. (\+\d{1,3}[-.\s]?)?\d{3}[-.\s]?\d{3}[-.\s]?\d{4}
  // 3. \(\d{3}\)\s?\d{3}[-.\s]?\d{4}

  /** `[-.\s]` */
  predicate IsSeparator(c: char) { c == '-' || c == '.' || IsSpace(c) }

  predicate SepAt(s: string, k: nat) { k < |s| && IsSeparator(s[k]) }

  predicate DigitsAt(s: string, k: nat, n: nat) {
    k + n <= |s| && forall j :: k <= j < k + n ==> IsDigit(s[j])
  }

  /** `[-.\s]?\d{4}` at `k` */
  predicate LastFour(s: string, k: nat) {
    DigitsAt(s, k, 4) || (SepAt(s, k) && DigitsAt(s, k + 1, 4))
  }

  /** `[-.\s]?\d{3}[-.\s]?\d{4}` at `k` */
  predicate MiddleThree(s: string, k: nat) {
    (DigitsAt(s, k, 3) && LastFour(s, k + 3)) || (SepAt(s, k) && DigitsAt(s, k + 1, 3) && LastFour(s, k + 4))
  }

  /** `\)?[-.\s]?\d{3}[-.\s]?\d{4}` at `k` */
  predicate AfterArea(s: string, k: nat) {
    (k < |s| && s[k] == ')' && MiddleThree(s, k + 1)) || MiddleThree(s, k)
  }

  /** The number part of pattern 1, `\(?\d{3}\)?[-.\s]?\d{3}[-.\s]?\d{4}`, at `k`. */
  predicate AreaNumberAt(s: string, k: nat) {
    (k < |s| && s[k] == '(' && DigitsAt(s, k + 1, 3) && AfterArea(s, k + 4)) ||
    (DigitsAt(s, k, 3) && AfterArea(s, k + 3))
  }

  /** The number part of pattern 2, `\d{3}[-.\s]?\d{3}[-.\s]?\d{4}`, at `k`. */
  predicate PlainNumberAt(s: string, k: nat) {
    DigitsAt(s, k, 3) && MiddleThree(s, k + 3)
  }

  /** The number part of pattern 1 (`area`) or pattern 2 (not `area`). */
  predicate NumberAt(s: string, k: nat, area: bool) {
    if area then AreaNumberAt(s, k) else PlainNumberAt(s, k)
  }

  /** The optional group `(\+\d{1,3}[-.\s]?)` at `i`, trying `n` digits and
      then fewer, each with the separator and then without. */
  function PrefixGroup(s: string, i: nat, n: nat, area: bool): Option<string>
    decreases n
  {
    if n == 0 || i >= |s| || s[i] != '+' then None
    else if DigitsAt(s, i + 1, n) && SepAt(s, i + 1 + n) && NumberAt(s, i + 2 + n, area) then Some(s[i..i + 2 + n])
    else if DigitsAt(s, i + 1, n) && NumberAt(s, i + 1 + n, area) then Some(s[i..i + 1 + n])
    else PrefixGroup(s, i, n - 1, area)
  }

  /** What `re.findall` reports for a match of pattern 1 or 2 starting at
      `i`: the text of the group, or `""` when the match skips the group. */
  function GroupAt(s: string, i: nat, area: bool): Option<string> {
    var g := PrefixGroup(s, i, 3, area);
    if g.Some? then g
    else if NumberAt(s, i, area) then Some("")
    else None
  }

  /** The group of the leftmost match at or after `i`. */
  function FirstGroup(s: string, i: nat, area: bool): Option<string>
    requires i <= |s|
    decreases |s| - i
  {
    var g := GroupAt(s, i, area);
    if g.Some? then g
    else if i == |s| then None
    else FirstGroup(s, i + 1, area)
  }

  /** `\d{3}[-.\s]?\d{4}` at `k`, separator tried first: where it ends. */
  function SevenEnd(s: string, k: nat): (r: Option<nat>)
    ensures r.Some? ==> k + 7 <= r.value <= |s|
  {
    if DigitsAt(s, k, 3) && SepAt(s, k + 3) && DigitsAt(s, k + 4, 4) then Some(k + 8)
    else if DigitsAt(s, k, 3) && DigitsAt(s, k + 3, 4) then Some(k + 7)
    else None
  }

  /** Pattern 3 at `i`: where the match ends, the optional space tried first. */
  function BracketedEnd(s: string, i: nat): (r: Option<nat>)
    ensures r.Some? ==> i < r.value <= |s|
  {
    if !(i < |s| && s[i] == '(' && DigitsAt(s, i + 1, 3) && i + 4 < |s| && s[i + 4] == ')') then None
    else
      var spaced := if i + 5 < |s| && IsSpace(s[i + 5]) then SevenEnd(s, i + 6) else None;
      if spaced.Some? then spaced else SevenEnd(s, i + 5)
  }

  /** The leftmost whole match of pattern 3 at or after `i`. */
  function FirstBracketed(s: string, i: nat): Option<string>
    requires i <= |s|
    decreases |s| - i
  {
    match BracketedEnd(s, i)
    case Some(e) => Some(s[i..e])
    case None => if i == |s| then None else FirstBracketed(s, i + 1)
  }

  /** `extract_phone`: the first pattern that matches anywhere decides; for
      patterns 1 and 2 the reported value is the group, for pattern 3 the
      whole match. */
  function ExtractPhone(text: string): string {
    match FirstGroup(text, 0, true)
    case Some(g) => g
    case None =>
      match FirstGroup(text, 0, false)
      case Some(g) => g
      case None =>
        match FirstBracketed(text, 0)
        case Some(m) => m
        case None => ""
  }

  /** The dialling prefix the group captures: `'+'`, one to three digits and
      at most one separator. */
  predicate IsDialPrefix(g: string) {
    exists n :: 1 <= n <= 3 && |g| >= n + 1 && g[0] == '+' && DigitsAt(g, 1, n) &&
      (|g| == n + 1 || (|g| == n + 2 && IsSeparator(g[n + 1])))
  }

  lemma {:induction false} PrefixGroupShape(s: string, i: nat, n: nat, area: bool)
    requires n <= 3 && PrefixGroup(s, i, n, area).Some?
    ensures n >= 1 && IsDialPrefix(PrefixGroup(s, i, n, area).value)
    decreases n
  {
    var g := PrefixGroup(s, i, n, area).value;
    if DigitsAt(s, i + 1, n) && SepAt(s, i + 1 + n) && NumberAt(s, i + 2 + n, area) {
      assert g == s[i..i + 2 + n];
      assert DigitsAt(g, 1, n) by {
        forall j | 1 <= j < 1 + n ensures IsDigit(g[j]) { assert g[j] == s[i + j]; }
      }
      assert IsSeparator(g[n + 1]);
    } else if DigitsAt(s, i + 1, n) && NumberAt(s, i + 1 + n, area) {
      assert g == s[i..i + 1 + n];
      assert DigitsAt(g, 1, n) by {
        forall j | 1 <= j < 1 + n ensures IsDigit(g[j]) { assert g[j] == s[i + j]; }
      }
    } else {
      PrefixGroupShape(s, i, n - 1, area);
    }
  }

  /** Pattern 2 only matches where pattern 1 does. */
  lemma {:induction false} PlainPrefixIsArea(s: string, i: nat, n: nat)
    requires PrefixGroup(s, i, n, false).Some?
    ensures PrefixGroup(s, i, n, true).Some?
    decreases n
  {
    if !(DigitsAt(s, i + 1, n) && SepAt(s, i + 1 + n) && NumberAt(s, i + 2 + n, false)) &&
       !(DigitsAt(s, i + 1, n) && NumberAt(s, i + 1 + n, false)) {
      PlainPrefixIsArea(s, i, n - 1);
    }
  }

  /** Pattern 3 only matches where pattern 1 does. */
  lemma BracketedIsArea(s: string, i: nat)
    requires BracketedEnd(s, i).Some?
    ensures AreaNumberAt(s, i)
  {
    assert s[i + 4] == ')';
    if i + 5 < |s| && IsSpace(s[i + 5]) && SevenEnd(s, i + 6).Some? {
      assert MiddleThree(s, i + 5);
    } else {
      assert MiddleThree(s, i + 5);
    }
  }

  lemma {:induction false} LaterPatternsImplyFirst(s: string, i: nat)
    requires i <= |s|
    requires FirstGroup(s, i, false).Some? || FirstBracketed(s, i).Some?
    ensures FirstGroup(s, i, true).Some?
    decreases |s| - i
  {
    if PrefixGroup(s, i, 3, false).Some? {
      PlainPrefixIsArea(s, i, 3);
    } else if BracketedEnd(s, i).Some? {
      BracketedIsArea(s, i);
    } else if !NumberAt(s, i, false) && i < |s| && GroupAt(s, i, true).None? {
      LaterPatternsImplyFirst(s, i + 1);
    }
  }

  /** Patterns 2 and 3 never decide: whenever one of them matches somewhere,
      pattern 1 matches too, so the result is the group of pattern 1's
      leftmost match, or `""`. */
  lemma OnlyFirstPatternCounts(text: string)
    ensures ExtractPhone(text) == (match FirstGroup(text, 0, true) case Some(g) => g case None => "")
  {
    if FirstGroup(text, 0, true).None? {
      if FirstGroup(text, 0, false).Some? || FirstBracketed(text, 0).Some? {
        LaterPatternsImplyFirst(text, 0);
      }
    }
  }

  lemma {:induction false} FirstGroupShape(s: string, i: nat)
    requires i <= |s| && FirstGroup(s, i, true).Some?
    ensures FirstGroup(s, i, true).value == "" || IsDialPrefix(FirstGroup(s, i, true).value)
    ensures '+' !in s ==> FirstGroup(s, i, true).value == ""
    decreases |s| - i
  {
    if PrefixGroup(s, i, 3, true).Some? {
      PrefixGroupShape(s, i, 3, true);
      assert s[i] == '+';
    } else if GroupAt(s, i, true).None? {
      FirstGroupShape(s, i + 1);
    }
  }

  /** `extract_phone` never fails and never yields a phone number: it is
      `""` or a dialling prefix such as `"+1 "`, and `""` whenever the text
      has no `'+'`. */
  lemma PhoneIsPrefixOnly(text: string)
    ensures ExtractPhone(text) == "" || IsDialPrefix(ExtractPhone(text))
    ensures '+' !in text ==> ExtractPhone(text) == ""
  {
    OnlyFirstPatternCounts(text);
    if FirstGroup(text, 0, true).Some? {
      FirstGroupShape(text, 0);
    }
  }

  /** A bare ten-digit number is matched by pattern 1 but reported as `""`. */
  lemma BareNumberGivesEmpty()
    ensures AreaNumberAt("555-123-4567", 0)
    ensures ExtractPhone("555-123-4567") == ""
  {
    var s := "555-123-4567";
    assert DigitsAt(s, 0, 3) && SepAt(s, 3) && DigitsAt(s, 4, 3) && SepAt(s, 7) && DigitsAt(s, 8, 4);
    assert MiddleThree(s, 3);
    PhoneIsPrefixOnly(s);
  }
}
