/**
 * The two free-text fields taken from the top of a resume: the candidate's
 * name, searched among the first five lines, and the summary, the lines
 * that follow a summary/objective/profile/about heading.
 */
module Heading {
  import opened Strings
  import opened Sections

  /** What `extract_name` answers when no line looks like a name. */
  const DefaultName: string := "Your Name"

  /** Words that disqualify a line from being the name. */
  const ContactWords: seq<string> := ["email", "phone", "address", "@"]

  /** Only this many leading lines are searched for the name. */
  const NameLines: nat := 5

  /** A stripped line looks like a name: it is non-empty, mentions no
      contact word, and has two to four words, each alphabetic once its
      dots are removed. */
  predicate LooksLikeName(line: string) {
    line != "" && !MentionsAny(line, ContactWords) &&
    2 <= |Words(line)| <= 4 &&
    forall k :: 0 <= k < |Words(line)| ==> IsAlpha(Remove(Words(line)[k], '.'))
  }

  /** The first line of `ls` whose stripped form looks like a name,
      stripped; the default when there is none. */
  function NameAmong(ls: seq<string>): string {
    if ls == [] then DefaultName
    else if LooksLikeName(Strip(ls[0])) then Strip(ls[0])
    else NameAmong(ls[1..])
  }

  /** `extract_name` */
  function ExtractName(text: string): string {
    NameAmong(Take(Lines(text), NameLines))
  }

  /** Line `j` is the earliest line of `ls` whose stripped form looks like
      a name. */
  predicate EarliestName(ls: seq<string>, j: nat) {
    j < |ls| && LooksLikeName(Strip(ls[j])) &&
    forall j' :: 0 <= j' < j ==> !LooksLikeName(Strip(ls[j']))
  }

  /** The name search returns the earliest qualifying line and falls back
      to the default only when no line qualifies. */
  lemma NameAmongSpec(ls: seq<string>)
    ensures (forall j :: 0 <= j < |ls| ==> !LooksLikeName(Strip(ls[j]))) ==> NameAmong(ls) == DefaultName
    ensures (exists j :: 0 <= j < |ls| && LooksLikeName(Strip(ls[j]))) ==>
              exists j: nat :: EarliestName(ls, j) && NameAmong(ls) == Strip(ls[j])
  {
    if exists j :: 0 <= j < |ls| && LooksLikeName(Strip(ls[j])) {
      var j :| 0 <= j < |ls| && LooksLikeName(Strip(ls[j]));
      EarliestExists(ls, j);
      var k: nat :| EarliestName(ls, k);
      NameAmongFirst(ls, k);
    } else {
      NameAmongNone(ls);
    }
  }

  lemma {:induction false} NameAmongNone(ls: seq<string>)
    requires forall j :: 0 <= j < |ls| ==> !LooksLikeName(Strip(ls[j]))
    ensures NameAmong(ls) == DefaultName
  {
    if ls != [] {
      assert forall j :: 0 <= j < |ls| - 1 ==> ls[1..][j] == ls[j + 1];
      NameAmongNone(ls[1..]);
    }
  }

  lemma {:induction false} NameAmongFirst(ls: seq<string>, j: nat)
    requires EarliestName(ls, j)
    ensures NameAmong(ls) == Strip(ls[j])
  {
    if j > 0 {
      assert forall k :: 0 <= k < |ls| - 1 ==> ls[1..][k] == ls[k + 1];
      assert EarliestName(ls[1..], j - 1);
      NameAmongFirst(ls[1..], j - 1);
    }
  }

  /** A qualifying line has an earliest qualifying line at or before it. */
  lemma {:induction false} EarliestExists(ls: seq<string>, j: nat)
    requires j < |ls| && LooksLikeName(Strip(ls[j]))
    ensures exists k: nat :: k <= j && EarliestName(ls, k)
    decreases j
  {
    if exists k :: 0 <= k < j && LooksLikeName(Strip(ls[k])) {
      var k :| 0 <= k < j && LooksLikeName(Strip(ls[k]));
      EarliestExists(ls, k);
    } else {
      assert EarliestName(ls, j);
    }
  }

  /** `extract_name` gives the stripped form of the earliest of the first
      five lines that looks like a name, and `"Your Name"` when none does. */
  lemma ExtractNameSpec(text: string)
    ensures var ls := Lines(text);
            (forall j :: 0 <= j < |ls| && j < NameLines ==> !LooksLikeName(Strip(ls[j]))) ==>
              ExtractName(text) == DefaultName
    ensures var ls := Lines(text);
            (exists j :: 0 <= j < |ls| && j < NameLines && LooksLikeName(Strip(ls[j]))) ==>
              exists j: nat :: j < NameLines && EarliestName(ls, j) && ExtractName(text) == Strip(ls[j])
  {
    var ls := Lines(text);
    var top := Take(ls, NameLines);
    NameAmongSpec(top);
    assert forall j :: 0 <= j < |top| ==> top[j] == ls[j];
    if exists j :: 0 <= j < |ls| && j < NameLines && LooksLikeName(Strip(ls[j])) {
      var j :| 0 <= j < |ls| && j < NameLines && LooksLikeName(Strip(ls[j]));
      assert LooksLikeName(Strip(top[j]));
      var j1: nat :| EarliestName(top, j1) && NameAmong(top) == Strip(top[j1]);
      assert EarliestName(ls, j1);
    } else {
      assert forall j :: 0 <= j < |top| ==> !LooksLikeName(Strip(top[j]));
    }
  }

  /** A reported name is the default or the stripped form of one of the
      first five lines that looks like a name: it mentions no contact word
      and has two to four words. */
  lemma NameShape(text: string)
    ensures var n := ExtractName(text);
            n == DefaultName ||
            (LooksLikeName(n) && IsStrippedLineOf(n, Take(Lines(text), NameLines)))
  {
    NameAmongShape(Take(Lines(text), NameLines));
  }

  lemma {:induction false} NameAmongShape(ls: seq<string>)
    ensures NameAmong(ls) == DefaultName ||
            (LooksLikeName(NameAmong(ls)) && IsStrippedLineOf(NameAmong(ls), ls))
  {
    if ls != [] {
      if LooksLikeName(Strip(ls[0])) {
        assert Strip(ls[0]) == NameAmong(ls);
      } else {
        NameAmongShape(ls[1..]);
        if NameAmong(ls) != DefaultName {
          var j :| 0 <= j < |ls| - 1 && Strip(ls[1..][j]) == NameAmong(ls);
          assert ls[1..][j] == ls[j + 1];
        }
      }
    }
  }

  // ---------------------------------------------------------------- summary

  const SummaryKeywords: seq<string> := ["summary", "objective", "profile", "about"]

  /** Words that end a summary. */
  const SummaryStops: seq<string> := ["experience", "education", "skills"]

  /** At most this many lines follow a heading into the summary. */
  const MaxSummaryLines: nat := 4

  /** A line that may continue a summary: not blank and naming no stop word. */
  predicate IsSummaryLine(line: string) {
    Strip(line) != "" && !MentionsAny(line, SummaryStops)
  }

  /** The leading summary lines of `ls`, stripped: the run stops at the
      first line that is blank or names a stop word. */
  function Followers(ls: seq<string>): (f: seq<string>)
    ensures |f| <= |ls|
    ensures forall k :: 0 <= k < |f| ==> IsSummaryLine(ls[k]) && f[k] == Strip(ls[k])
    ensures |f| < |ls| ==> !IsSummaryLine(ls[|f|])
  {
    if ls == [] || !IsSummaryLine(ls[0]) then []
    else [Strip(ls[0])] + Followers(ls[1..])
  }

  /** The summary lines directly after line `i`, at most four of them. */
  function FollowersOf(ls: seq<string>, i: nat): seq<string>
    requires i < |ls|
  {
    Followers(ls[i + 1..Min(i + 1 + MaxSummaryLines, |ls|)])
  }

  /** Line `i` is a summary heading with at least one summary line after it. */
  predicate Introduces(ls: seq<string>, i: nat)
    requires i < |ls|
  {
    MentionsAny(ls[i], SummaryKeywords) && i + 1 < |ls| && IsSummaryLine(ls[i + 1])
  }

  /** The summary found from line `i` on. */
  function SummaryFrom(ls: seq<string>, i: nat): string
    requires i <= |ls|
    decreases |ls| - i
  {
    if i == |ls| then ""
    else
      var found := if MentionsAny(ls[i], SummaryKeywords) then FollowersOf(ls, i) else [];
      if found != [] then Join(found, ' ') else SummaryFrom(ls, i + 1)
  }

  /** `extract_summary` */
  function ExtractSummary(text: string): string {
    SummaryFrom(Lines(text), 0)
  }

  lemma {:induction false} JoinNonEmpty(parts: seq<string>, sep: char)
    requires parts != [] && parts[0] != ""
    ensures Join(parts, sep) != ""
  {
    if |parts| > 1 {
      assert Join(parts, sep) == parts[0] + [sep] + Join(parts[1..], sep);
    }
  }

  /** Lines `k+1 .. k+n` are the summary that heading `k` introduces: all
      summary lines, one to four of them, and the run stops there because
      four were taken or the next line is not a summary line. */
  predicate SummaryRun(ls: seq<string>, k: nat, n: nat) {
    k + n < |ls| && 1 <= n <= MaxSummaryLines && Introduces(ls, k) &&
    (forall m :: k < m <= k + n ==> IsSummaryLine(ls[m])) &&
    (n < MaxSummaryLines && k + n + 1 < |ls| ==> !IsSummaryLine(ls[k + n + 1]))
  }

  /** No line in `[lo, hi)` introduces a summary. */
  predicate NoHeadingIn(ls: seq<string>, lo: nat, hi: nat) {
    forall k :: lo <= k < hi && k < |ls| ==> !Introduces(ls, k)
  }

  lemma FollowersRun(ls: seq<string>, i: nat)
    requires i < |ls| && MentionsAny(ls[i], SummaryKeywords) && FollowersOf(ls, i) != []
    ensures SummaryRun(ls, i, |FollowersOf(ls, i)|)
  {
    var window := ls[i + 1..Min(i + 1 + MaxSummaryLines, |ls|)];
    var n := |FollowersOf(ls, i)|;
    assert IsSummaryLine(window[0]);
    forall m | i < m <= i + n ensures IsSummaryLine(ls[m]) {
      assert window[m - i - 1] == ls[m];
    }
    if n < MaxSummaryLines && i + n + 1 < |ls| {
      assert window[n] == ls[i + n + 1];
    }
  }

  lemma FollowersStripped(ls: seq<string>, i: nat)
    requires i < |ls|
    ensures i + |FollowersOf(ls, i)| < |ls|
    ensures FollowersOf(ls, i) == StripAll(ls[i + 1..i + |FollowersOf(ls, i)| + 1])
  {
    var window := ls[i + 1..Min(i + 1 + MaxSummaryLines, |ls|)];
    var found := FollowersOf(ls, i);
    assert forall k :: 0 <= k < |found| ==> window[k] == ls[i + 1 + k];
  }

  /** A heading introduces a summary exactly when its window of followers
      is non-empty. */
  lemma IntroducesIff(ls: seq<string>, i: nat)
    requires i < |ls|
    ensures Introduces(ls, i) <==> MentionsAny(ls[i], SummaryKeywords) && FollowersOf(ls, i) != []
  {
    var window := ls[i + 1..Min(i + 1 + MaxSummaryLines, |ls|)];
    if i + 1 < |ls| {
      assert window[0] == ls[i + 1];
    }
  }

  lemma {:induction false} SummaryEmptyIff(ls: seq<string>, i: nat)
    requires i <= |ls|
    ensures SummaryFrom(ls, i) == "" <==> NoHeadingIn(ls, i, |ls|)
    decreases |ls| - i
  {
    if i < |ls| {
      IntroducesIff(ls, i);
      var found := if MentionsAny(ls[i], SummaryKeywords) then FollowersOf(ls, i) else [];
      if found != [] {
        assert found[0] == Strip(ls[i + 1 + 0]) by {
          assert ls[i + 1..Min(i + 1 + MaxSummaryLines, |ls|)][0] == ls[i + 1];
        }
        JoinNonEmpty(found, ' ');
      } else {
        SummaryEmptyIff(ls, i + 1);
      }
    }
  }

  /** A heading with followers ends the search with their run. */
  lemma SummaryAtHeading(ls: seq<string>, i: nat)
    requires i < |ls| && MentionsAny(ls[i], SummaryKeywords) && FollowersOf(ls, i) != []
    ensures SummaryRun(ls, i, |FollowersOf(ls, i)|)
    ensures SummaryFrom(ls, i) == Join(StripAll(ls[i + 1..i + |FollowersOf(ls, i)| + 1]), ' ')
  {
    FollowersRun(ls, i);
    FollowersStripped(ls, i);
  }

  lemma {:induction false} SummaryFromSpec(ls: seq<string>, i: nat)
    requires i <= |ls|
    ensures SummaryFrom(ls, i) != "" ==>
              exists k: nat, n: nat :: i <= k && SummaryRun(ls, k, n) && NoHeadingIn(ls, i, k) &&
                SummaryFrom(ls, i) == Join(StripAll(ls[k + 1..k + n + 1]), ' ')
    decreases |ls| - i
  {
    if i < |ls| {
      IntroducesIff(ls, i);
      var found := if MentionsAny(ls[i], SummaryKeywords) then FollowersOf(ls, i) else [];
      if found != [] {
        SummaryAtHeading(ls, i);
        assert NoHeadingIn(ls, i, i);
      } else {
        assert !Introduces(ls, i);
        SummaryFromSpec(ls, i + 1);
        if SummaryFrom(ls, i + 1) != "" {
          var k: nat, n: nat :| i + 1 <= k && SummaryRun(ls, k, n) && NoHeadingIn(ls, i + 1, k) &&
                              SummaryFrom(ls, i + 1) == Join(StripAll(ls[k + 1..k + n + 1]), ' ');
          assert NoHeadingIn(ls, i, k);
        }
      }
    }
  }

  /** `extract_summary` is `""` exactly when no summary heading is directly
      followed by a summary line; otherwise it is the space-join of the one
      to four stripped summary lines after the first heading that has one,
      taken up to the first line that is blank or names a stop word. */
  lemma ExtractSummarySpec(text: string)
    ensures ExtractSummary(text) == "" <==> NoHeadingIn(Lines(text), 0, |Lines(text)|)
    ensures ExtractSummary(text) != "" ==>
              exists k: nat, n: nat :: SummaryRun(Lines(text), k, n) && NoHeadingIn(Lines(text), 0, k) &&
                ExtractSummary(text) == Join(StripAll(Lines(text)[k + 1..k + n + 1]), ' ')
  {
    SummaryEmptyIff(Lines(text), 0);
    SummaryFromSpec(Lines(text), 0);
  }
}
