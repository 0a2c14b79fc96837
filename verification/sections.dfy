/**
 * Section slicing: the block of resume lines that starts at the first line
 * naming a section and runs up to the next line naming one of the six
 * major sections.
 */
module Sections {
  import opened Strings

  /** Words whose appearance in a line closes the section being sliced. */
  const MajorSections: seq<string> :=
    ["experience", "education", "skills", "projects", "summary", "objective"]

  /** `text.split('\n')` */
  function Lines(text: string): (ls: seq<string>)
    ensures |ls| >= 1
    ensures forall j :: 0 <= j < |ls| ==> '\n' !in ls[j]
  {
    Split(text, '\n')
  }

  /** Index of the first line at or after `from` that mentions one of
      `words`, or `|ls|` when there is none. */
  function FirstMention(ls: seq<string>, words: seq<string>, from: nat): (r: nat)
    requires from <= |ls|
    ensures from <= r <= |ls|
    ensures r < |ls| ==> MentionsAny(ls[r], words)
    ensures forall j :: from <= j < r ==> !MentionsAny(ls[j], words)
    decreases |ls| - from
  {
    if from == |ls| then from
    else if MentionsAny(ls[from], words) then from
    else FirstMention(ls, words, from + 1)
  }

  /** The section named by `keywords`, as a string: the lines from the first
      one mentioning a keyword up to (excluding) the next one mentioning a
      major section word, rejoined with line breaks; empty when no line
      mentions a keyword. */
  function SectionOf(text: string, keywords: seq<string>): string {
    var ls := Lines(text);
    var start := FirstMention(ls, keywords, 0);
    if start == |ls| then ""
    else Join(ls[start..FirstMention(ls, MajorSections, start + 1)], '\n')
  }

  /** The slicing loop: find the header line, then the next major section
      header after it, and join what lies between. */
  method ExtractSection(text: string, keywords: seq<string>) returns (section: string)
    ensures section == SectionOf(text, keywords)
  {
    var lines := Lines(text);
    var sectionStart := -1;
    var i := 0;
    while i < |lines|
      invariant 0 <= i <= |lines|
      invariant sectionStart == -1
      invariant forall j :: 0 <= j < i ==> !MentionsAny(lines[j], keywords)
    {
      if MentionsAny(lines[i], keywords) {
        sectionStart := i;
        break;
      }
      i := i + 1;
    }
    if sectionStart == -1 {
      return "";
    }
    var sectionEnd := |lines|;
    i := sectionStart + 1;
    while i < |lines|
      invariant sectionStart + 1 <= i <= |lines|
      invariant sectionEnd == |lines|
      invariant forall j :: sectionStart + 1 <= j < i ==> !MentionsAny(lines[j], MajorSections)
    {
      if MentionsAny(lines[i], MajorSections) {
        sectionEnd := i;
        break;
      }
      i := i + 1;
    }
    FirstMentionIs(lines, keywords, 0, sectionStart);
    FirstMentionIs(lines, MajorSections, sectionStart + 1, sectionEnd);
    section := Join(lines[sectionStart..sectionEnd], '\n');
  }

  /** `FirstMention` is characterised by its contract: any index with the
      same property is the one it returns. */
  lemma {:induction false} FirstMentionIs(ls: seq<string>, words: seq<string>, from: nat, r: nat)
    requires from <= r <= |ls|
    requires r < |ls| ==> MentionsAny(ls[r], words)
    requires forall j :: from <= j < r ==> !MentionsAny(ls[j], words)
    ensures FirstMention(ls, words, from) == r
    decreases |ls| - from
  {
    if from < r {
      FirstMentionIs(ls, words, from + 1, r);
    }
  }

  lemma {:induction false} JoinedSlice(ls: seq<string>, s: nat, e: nat, words: seq<string>)
    requires s < e <= |ls|
    requires MentionsAny(ls[s], words)
    requires forall k :: 0 <= k < |words| ==> words[k] != ""
    ensures Join(ls[s..e], '\n') != ""
  {
    var k :| 0 <= k < |words| && Contains(Lower(ls[s]), words[k]);
    ContainsNonEmpty(Lower(ls[s]), words[k]);
    var p := ls[s..e];
    if |p| > 1 {
      assert Join(p, '\n') == p[0] + ['\n'] + Join(p[1..], '\n');
    }
  }

  lemma {:induction false} ContainsNonEmpty(s: string, sub: string)
    requires sub != "" && Contains(s, sub)
    ensures s != ""
  {
  }

  /** A section is empty exactly when no line mentions one of its
      (non-empty) keywords. */
  lemma SectionEmptyIff(text: string, keywords: seq<string>)
    requires forall k :: 0 <= k < |keywords| ==> keywords[k] != ""
    ensures SectionOf(text, keywords) == "" <==>
              forall j :: 0 <= j < |Lines(text)| ==> !MentionsAny(Lines(text)[j], keywords)
  {
    var ls := Lines(text);
    var start := FirstMention(ls, keywords, 0);
    if start < |ls| {
      JoinedSlice(ls, start, FirstMention(ls, MajorSections, start + 1), keywords);
    }
  }

  /** A non-empty section is a contiguous run of the text's lines: it starts
      at the first line mentioning a keyword, no later line of it mentions a
      major section word, and it stops only at such a line or at the end of
      the text. Splitting it again gives exactly those lines. */
  lemma SectionSlice(text: string, keywords: seq<string>)
    requires exists j :: 0 <= j < |Lines(text)| && MentionsAny(Lines(text)[j], keywords)
    ensures var ls := Lines(text);
            var s := FirstMention(ls, keywords, 0);
            s < |ls| &&
            (forall j :: 0 <= j < s ==> !MentionsAny(ls[j], keywords)) &&
            MentionsAny(ls[s], keywords) &&
            exists e :: s < e <= |ls| &&
              SectionOf(text, keywords) == Join(ls[s..e], '\n') &&
              Lines(SectionOf(text, keywords)) == ls[s..e] &&
              (forall j :: s < j < e ==> !MentionsAny(ls[j], MajorSections)) &&
              (e < |ls| ==> MentionsAny(ls[e], MajorSections))
  {
    var ls := Lines(text);
    var s := FirstMention(ls, keywords, 0);
    var e := FirstMention(ls, MajorSections, s + 1);
    SplitJoin(ls[s..e], '\n');
  }
}
