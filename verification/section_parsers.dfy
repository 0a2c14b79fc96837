/**
 * The per-section parsers for work experience, projects and education.
 * Experience and projects share one accumulate-and-flush loop: a title line
 * opens an entry and every other non-blank line is appended to the open
 * entry's description.
 */
module SectionParsers {
  import opened Strings
  import opened Sections

  const ExperienceKeywords: seq<string> := ["experience", "work", "employment"]
  const ProjectKeywords: seq<string> := ["projects", "portfolio"]
  const EducationKeywords: seq<string> := ["education", "qualification", "degree"]
  const DegreeWords: seq<string> := ["bachelor", "master", "degree", "university", "college"]

  /** Cap on the number of experience entries and of project entries. */
  const MaxEntries: nat := 3

  datatype Experience = Experience(title: string, company: string, duration: string, description: string)
  datatype Education = Education(degree: string, institution: string, year: string)
  datatype Project = Project(name: string, description: string, technologies: string)

  /** An entry under construction: the title line and the description so far. */
  datatype Entry = Entry(title: string, description: string)

  /** A stripped line reads as a title when it has an upper-case letter and
      at least two whitespace-separated words. */
  predicate IsTitle(line: string) {
    HasUpper(line) && |Words(line)| >= 2
  }

  /** The description text that follows a title: each later non-blank,
      non-title line, stripped and followed by one space, up to the next
      title line. */
  function Body(ls: seq<string>): string {
    if ls == [] then ""
    else
      var line := Strip(ls[0]);
      if IsTitle(line) then ""
      else (if line == "" then "" else line + " ") + Body(ls[1..])
  }

  /** Reference definition of the entries of a section: one per title line,
      in document order, each carrying the body that follows it; lines
      before the first title belong to no entry. */
  function Entries(ls: seq<string>): seq<Entry> {
    if ls == [] then []
    else
      var line := Strip(ls[0]);
      if IsTitle(line) then [Entry(line, Body(ls[1..]))] + Entries(ls[1..])
      else Entries(ls[1..])
  }

  /** The stripped title lines of `ls`, in order. */
  function TitleLines(ls: seq<string>): seq<string> {
    if ls == [] then []
    else (if IsTitle(Strip(ls[0])) then [Strip(ls[0])] else []) + TitleLines(ls[1..])
  }

  /** What the entries found so far plus the open entry will amount to once
      the lines `rest` have been read. */
  function Pending(done: seq<Entry>, current: Option<Entry>, rest: seq<string>): seq<Entry> {
    match current
    case None => done + Entries(rest)
    case Some(e) => done + [Entry(e.title, e.description + Body(rest))] + Entries(rest)
  }

  /** Reading one more line: how `Body` and `Entries` unfold at `ls[i]`. */
  lemma UnfoldAt(ls: seq<string>, i: nat)
    requires i < |ls|
    ensures var line := Strip(ls[i]);
            Body(ls[i..]) == (if IsTitle(line) then "" else (if line == "" then "" else line + " ") + Body(ls[i + 1..])) &&
            Entries(ls[i..]) == (if IsTitle(line) then [Entry(line, Body(ls[i + 1..]))] + Entries(ls[i + 1..]) else Entries(ls[i + 1..]))
  {
    assert ls[i..][0] == ls[i];
    assert ls[i..][1..] == ls[i + 1..];
  }

  /** A blank line changes nothing. */
  lemma StepBlank(done: seq<Entry>, current: Option<Entry>, ls: seq<string>, i: nat)
    requires i < |ls| && Strip(ls[i]) == ""
    ensures Pending(done, current, ls[i..]) == Pending(done, current, ls[i + 1..])
  {
    UnfoldAt(ls, i);
    assert !HasUpper(Strip(ls[i]));
    assert Body(ls[i..]) == Body(ls[i + 1..]);
  }

  /** A title line closes the open entry and opens a new, empty one. */
  lemma StepTitle(done: seq<Entry>, current: Option<Entry>, ls: seq<string>, i: nat)
    requires i < |ls| && IsTitle(Strip(ls[i]))
    ensures Pending(done, current, ls[i..]) ==
            Pending(done + (if current.Some? then [current.value] else []), Some(Entry(Strip(ls[i]), "")), ls[i + 1..])
  {
    UnfoldAt(ls, i);
    var line := Strip(ls[i]);
    var body := Body(ls[i + 1..]);
    assert "" + body == body;
    match current
    case None =>
    case Some(e) =>
      assert e.description + "" == e.description;
  }

  /** Any other line is appended, with a space, to the open entry. */
  lemma StepText(done: seq<Entry>, current: Option<Entry>, ls: seq<string>, i: nat)
    requires i < |ls| && Strip(ls[i]) != "" && !IsTitle(Strip(ls[i]))
    ensures Pending(done, current, ls[i..]) ==
            Pending(done, (match current
                           case None => None
                           case Some(e) => Some(Entry(e.title, e.description + Strip(ls[i]) + " "))), ls[i + 1..])
  {
    UnfoldAt(ls, i);
    var line := Strip(ls[i]);
    var body := Body(ls[i + 1..]);
    match current
    case None =>
    case Some(e) =>
      assert e.description + (line + " " + body) == e.description + line + " " + body;
  }

  /** At the end of the lines the open entry is flushed as it is. */
  lemma StepEnd(done: seq<Entry>, current: Option<Entry>)
    ensures Pending(done, current, []) == done + (if current.Some? then [current.value] else [])
  {
    match current
    case None =>
    case Some(e) =>
      assert e.description + Body([]) == e.description;
  }

  /** The accumulate-and-flush loop shared by the experience and project
      parsers. */
  method AccumulateEntries(lines: seq<string>) returns (entries: seq<Entry>)
    ensures entries == Entries(lines)
  {
    entries := [];
    var current: Option<Entry> := None;
    var i := 0;
    assert lines[i..] == lines;
    assert Pending(entries, current, lines[i..]) == [] + Entries(lines);
    while i < |lines|
      invariant 0 <= i <= |lines|
      invariant Pending(entries, current, lines[i..]) == Entries(lines)
    {
      var line := Strip(lines[i]);
      if line == "" {
        StepBlank(entries, current, lines, i);
        i := i + 1;
        continue;
      }
      if IsTitle(line) {
        StepTitle(entries, current, lines, i);
        if current.Some? {
          entries := entries + [current.value];
        } else {
          assert entries + [] == entries;
        }
        current := Some(Entry(line, ""));
      } else {
        StepText(entries, current, lines, i);
        if current.Some? {
          current := Some(Entry(current.value.title, current.value.description + line + " "));
        }
      }
      i := i + 1;
    }
    assert lines[i..] == [];
    StepEnd(entries, current);
    if current.Some? {
      entries := entries + [current.value];
    }
  }

  function ExperienceSection(text: string): string { SectionOf(text, ExperienceKeywords) }
  function ProjectSection(text: string): string { SectionOf(text, ProjectKeywords) }
  function EducationSection(text: string): string { SectionOf(text, EducationKeywords) }

  function ToExperience(e: Entry): Experience { Experience(e.title, "", "", e.description) }
  function ToProject(e: Entry): Project { Project(e.title, e.description, "") }

  /** The experience entries cut from the lines of a section, capped. */
  function ExperienceFrom(ls: seq<string>): seq<Experience> {
    var es := Take(Entries(ls), MaxEntries);
    seq(|es|, k requires 0 <= k < |es| => ToExperience(es[k]))
  }

  /** The project entries cut from the lines of a section, capped. */
  function ProjectsFrom(ls: seq<string>): seq<Project> {
    var es := Take(Entries(ls), MaxEntries);
    seq(|es|, k requires 0 <= k < |es| => ToProject(es[k]))
  }

  /** The experience list parse_resume_data reports for `text`. */
  function ExperienceOf(text: string): seq<Experience> {
    var section := ExperienceSection(text);
    if section == "" then [] else ExperienceFrom(Lines(section))
  }

  /** The project list parse_resume_data reports for `text`. */
  function ProjectsOf(text: string): seq<Project> {
    var section := ProjectSection(text);
    if section == "" then [] else ProjectsFrom(Lines(section))
  }

  method ExtractExperience(text: string) returns (experiences: seq<Experience>)
    ensures experiences == ExperienceOf(text)
  {
    var section := ExtractSection(text, ExperienceKeywords);
    if section == "" {
      return [];
    }
    var entries := AccumulateEntries(Lines(section));
    var kept := Take(entries, MaxEntries);
    experiences := seq(|kept|, k requires 0 <= k < |kept| => ToExperience(kept[k]));
  }

  method ExtractProjects(text: string) returns (projects: seq<Project>)
    ensures projects == ProjectsOf(text)
  {
    var section := ExtractSection(text, ProjectKeywords);
    if section == "" {
      return [];
    }
    var entries := AccumulateEntries(Lines(section));
    var kept := Take(entries, MaxEntries);
    projects := seq(|kept|, k requires 0 <= k < |kept| => ToProject(kept[k]));
  }

  // ---------------------------------------------------------------- entries

  /** One entry per title line, in order, each titled by that line. */
  lemma {:induction false} EntriesFollowTitles(ls: seq<string>)
    ensures |Entries(ls)| == |TitleLines(ls)|
    ensures forall k :: 0 <= k < |Entries(ls)| ==> Entries(ls)[k].title == TitleLines(ls)[k]
  {
    if ls != [] {
      EntriesFollowTitles(ls[1..]);
    }
  }

  /** Every title line is a stripped line of the input that reads as a title. */
  lemma {:induction false} TitleLinesAreTitles(ls: seq<string>)
    ensures forall t :: t in TitleLines(ls) ==> IsTitle(t) && IsStrippedLineOf(t, ls)
  {
    if ls != [] {
      TitleLinesAreTitles(ls[1..]);
      forall t | t in TitleLines(ls[1..]) ensures IsStrippedLineOf(t, ls) {
        var j :| 0 <= j < |ls[1..]| && Strip(ls[1..][j]) == t;
        assert Strip(ls[j + 1]) == t;
      }
      // the first line's own title, if any, comes from line 0
      assert IsStrippedLineOf(Strip(ls[0]), ls);
    }
  }

  /** A description is empty or ends in the space that follows each line. */
  lemma {:induction false} BodyEndsInSpace(ls: seq<string>)
    ensures Body(ls) == "" || Body(ls)[|Body(ls)| - 1] == ' '
  {
    if ls != [] {
      BodyEndsInSpace(ls[1..]);
    }
  }

  lemma {:induction false} DescriptionsEndInSpace(ls: seq<string>)
    ensures forall k :: 0 <= k < |Entries(ls)| ==>
              Entries(ls)[k].description == "" ||
              Entries(ls)[k].description[|Entries(ls)[k].description| - 1] == ' '
  {
    if ls != [] {
      DescriptionsEndInSpace(ls[1..]);
      BodyEndsInSpace(ls[1..]);
    }
  }

  /** Lines before the first title line contribute nothing. */
  lemma {:induction false} LeadingLinesDropped(pre: seq<string>, ls: seq<string>)
    requires forall j :: 0 <= j < |pre| ==> !IsTitle(Strip(pre[j]))
    ensures Entries(pre + ls) == Entries(ls)
  {
    if pre != [] {
      assert (pre + ls)[0] == pre[0] && !IsTitle(Strip(pre[0]));
      assert (pre + ls)[1..] == pre[1..] + ls;
      LeadingLinesDropped(pre[1..], ls);
    } else {
      assert pre + ls == ls;
    }
  }

  /** The section's own header counts as the first title when it has two
      words and a capital, as in "Work Experience". */
  lemma HeaderIsFirstTitle(header: string, ls: seq<string>)
    requires IsTitle(Strip(header))
    ensures Entries([header] + ls)[0].title == Strip(header)
  {
    assert ([header] + ls)[1..] == ls;
  }

  // -------------------------------------------------------- reported lists

  /** The first `MaxEntries` entries of a section, as the parsers keep them:
      titled by the section's title lines in order, each title a stripped
      line of the section that reads as a title, each description empty or
      ending in a space. */
  lemma KeptEntries(ls: seq<string>)
    ensures var es := Take(Entries(ls), MaxEntries);
            |es| <= MaxEntries && |es| <= |TitleLines(ls)| &&
            forall k :: 0 <= k < |es| ==>
              es[k].title == TitleLines(ls)[k] &&
              IsTitle(es[k].title) && IsStrippedLineOf(es[k].title, ls) &&
              (es[k].description == "" || es[k].description[|es[k].description| - 1] == ' ')
  {
    EntriesFollowTitles(ls);
    TitleLinesAreTitles(ls);
    DescriptionsEndInSpace(ls);
    var es := Take(Entries(ls), MaxEntries);
    forall k | 0 <= k < |es|
      ensures es[k].title == TitleLines(ls)[k] && IsTitle(es[k].title) && IsStrippedLineOf(es[k].title, ls)
    {
      assert es[k] == Entries(ls)[k];
      assert TitleLines(ls)[k] in TitleLines(ls);
    }
  }

  /** Experience entries cut from section lines: at most three, titled by
      the leading title lines in order, company and duration empty, each
      description empty or ending in a space. */
  lemma ExperienceFromShape(ls: seq<string>)
    ensures var ex := ExperienceFrom(ls);
            |ex| <= MaxEntries && |ex| <= |TitleLines(ls)| &&
            forall k :: 0 <= k < |ex| ==>
              ex[k].company == "" && ex[k].duration == "" &&
              ex[k].title == TitleLines(ls)[k] &&
              IsTitle(ex[k].title) && IsStrippedLineOf(ex[k].title, ls) &&
              (ex[k].description == "" || ex[k].description[|ex[k].description| - 1] == ' ')
  {
    KeptEntries(ls);
  }

  /** Project entries cut from section lines: at most three, named by the
      leading title lines in order, technologies empty, each description
      empty or ending in a space. */
  lemma ProjectsFromShape(ls: seq<string>)
    ensures var ps := ProjectsFrom(ls);
            |ps| <= MaxEntries && |ps| <= |TitleLines(ls)| &&
            forall k :: 0 <= k < |ps| ==>
              ps[k].technologies == "" &&
              ps[k].name == TitleLines(ls)[k] &&
              IsTitle(ps[k].name) && IsStrippedLineOf(ps[k].name, ls) &&
              (ps[k].description == "" || ps[k].description[|ps[k].description| - 1] == ' ')
  {
    KeptEntries(ls);
  }

  /** Shape of the reported experience list: nothing without a section, and
      otherwise the shape of the entries cut from the section's lines. */
  lemma ExperienceShape(text: string)
    ensures ExperienceSection(text) == "" ==> ExperienceOf(text) == []
    ensures |ExperienceOf(text)| <= MaxEntries
    ensures var ls := Lines(ExperienceSection(text));
            var ex := ExperienceOf(text);
            |ex| <= |TitleLines(ls)| &&
            forall k :: 0 <= k < |ex| ==>
              ex[k].company == "" && ex[k].duration == "" &&
              ex[k].title == TitleLines(ls)[k] &&
              IsTitle(ex[k].title) && IsStrippedLineOf(ex[k].title, ls) &&
              (ex[k].description == "" || ex[k].description[|ex[k].description| - 1] == ' ')
  {
    ExperienceFromShape(Lines(ExperienceSection(text)));
  }

  /** Shape of the reported project list: nothing without a section, and
      otherwise the shape of the entries cut from the section's lines. */
  lemma ProjectsShape(text: string)
    ensures ProjectSection(text) == "" ==> ProjectsOf(text) == []
    ensures |ProjectsOf(text)| <= MaxEntries
    ensures var ls := Lines(ProjectSection(text));
            var ps := ProjectsOf(text);
            |ps| <= |TitleLines(ls)| &&
            forall k :: 0 <= k < |ps| ==>
              ps[k].technologies == "" &&
              ps[k].name == TitleLines(ls)[k] &&
              IsTitle(ps[k].name) && IsStrippedLineOf(ps[k].name, ls) &&
              (ps[k].description == "" || ps[k].description[|ps[k].description| - 1] == ' ')
  {
    ProjectsFromShape(Lines(ProjectSection(text)));
  }

  // -------------------------------------------------------------- education

  predicate IsDegreeLine(line: string) {
    line != "" && MentionsAny(line, DegreeWords)
  }

  /** Reference definition: the stripped degree lines of `ls`, in order. */
  function DegreeLines(ls: seq<string>): seq<string> {
    if ls == [] then []
    else
      var last := Strip(ls[|ls| - 1]);
      DegreeLines(ls[..|ls| - 1]) + (if IsDegreeLine(last) then [last] else [])
  }

  function AsEducation(degrees: seq<string>): seq<Education> {
    seq(|degrees|, k requires 0 <= k < |degrees| => Education(degrees[k], "", ""))
  }

  function EducationOf(text: string): seq<Education> {
    var section := EducationSection(text);
    if section == "" then [] else AsEducation(DegreeLines(Lines(section)))
  }

  method ExtractEducation(text: string) returns (educations: seq<Education>)
    ensures educations == EducationOf(text)
  {
    var section := ExtractSection(text, EducationKeywords);
    if section == "" {
      return [];
    }
    var lines := Lines(section);
    educations := [];
    ghost var degrees: seq<string> := [];
    for i := 0 to |lines|
      invariant degrees == DegreeLines(lines[..i])
      invariant |educations| == |degrees|
      invariant forall k :: 0 <= k < |degrees| ==> educations[k] == Education(degrees[k], "", "")
    {
      assert lines[..i + 1][..i] == lines[..i];
      assert lines[..i + 1][i] == lines[i];
      var line := Strip(lines[i]);
      if line != "" && MentionsAny(line, DegreeWords) {
        educations := educations + [Education(line, "", "")];
        degrees := degrees + [line];
      }
    }
    assert lines[..|lines|] == lines;
    assert educations == AsEducation(degrees);
  }

  /** A string is one of the degree lines exactly when it is the stripped
      form of some line that qualifies. */
  lemma {:induction false} DegreeLinesMembers(ls: seq<string>, x: string)
    ensures x in DegreeLines(ls) <==> IsDegreeLine(x) && IsStrippedLineOf(x, ls)
  {
    if ls != [] {
      var init := ls[..|ls| - 1];
      DegreeLinesMembers(init, x);
      if x in DegreeLines(init) {
        var j :| 0 <= j < |init| && Strip(init[j]) == x;
        assert Strip(ls[j]) == x;
      }
      if IsDegreeLine(x) && IsStrippedLineOf(x, ls) {
        var j :| 0 <= j < |ls| && Strip(ls[j]) == x;
        if j < |ls| - 1 {
          assert Strip(init[j]) == x;
        }
      }
    }
  }

  /** Every degree line, in order, with empty institution and year and no
      cap on the count: `x` is a reported degree exactly when it is a
      stripped line of the section that names a degree word. */
  lemma EducationShape(text: string, x: string)
    ensures EducationSection(text) == "" ==> EducationOf(text) == []
    ensures forall k :: 0 <= k < |EducationOf(text)| ==>
              EducationOf(text)[k].institution == "" && EducationOf(text)[k].year == "" &&
              IsDegreeLine(EducationOf(text)[k].degree)
    ensures EducationSection(text) != "" ==>
              ((exists k :: 0 <= k < |EducationOf(text)| && EducationOf(text)[k].degree == x) <==>
               IsDegreeLine(x) && IsStrippedLineOf(x, Lines(EducationSection(text))))
  {
    var ls := Lines(EducationSection(text));
    var ds := DegreeLines(ls);
    DegreeLinesMembers(ls, x);
    forall k | 0 <= k < |ds| ensures IsDegreeLine(ds[k]) {
      DegreeLinesMembers(ls, ds[k]);
    }
    if EducationSection(text) != "" {
      if x in ds {
        var k :| 0 <= k < |ds| && ds[k] == x;
        assert EducationOf(text)[k].degree == x;
      }
    }
  }
}
