# Resume parser model

This project models the part of the resume-to-portfolio application that turns the plain text of a resume into a structured record. It also models the filename check that guards the upload.

The record has eight fields:

- `name`: one of the first five lines that looks like a name, or `"Your Name"`.
- `email`: the first match of the email pattern.
- `phone`: what the first matching phone pattern reports.
- `summary`: the lines following a summary/objective/profile/about heading.
- `experience`: up to three entries cut from the experience section.
- `education`: one entry per degree line of the education section.
- `skills`: up to ten distinct skills from the skills section.
- `projects`: up to three entries cut from the projects section.

Sections are found by keyword. Each one runs from the first line that names it up to the next line naming one of the six major sections.

## How the model is organised

- `Strings` holds the Python string built-ins the parser uses, restricted to ASCII: `lower`, `strip`, `split('\n')`, `split()`, `join`, `in`, `isalpha`, `isupper`, `replace`. It also proves that splitting and joining on one character are inverse to each other.
- `Sections` models `extract_section`. `ExtractSection` is the slicing loop. It is proved equal to the function `SectionOf`, and the lemmas about `SectionOf` state what a section is.
- `SectionParsers` covers experience, projects and education:
  - `AccumulateEntries` is the accumulate-and-flush loop shared by experience and projects. It carries an `Option` for the open entry and is proved equal to the recursive function `Entries`.
  - `ExtractEducation` is the filter-and-map loop, proved equal to `EducationOf`.
- `Skills` models `extract_skills`:
  - the vocabulary scan and the comma-line scan are methods proved equal to `Candidates`;
  - `list(set(...))[:10]` draws elements from the set in an arbitrary order, chosen with `:|`, and is specified by `SkillsFit`.
- `Contact` covers the email and phone regular expressions, as hand-written backtracking searches.
  - Each search has a declarative description of what it accepts.
  - For email, the search is proved sound against that description, complete, leftmost and longest.
  - For phone, patterns 2 and 3 are proved never to decide.
- `Heading` covers `extract_name` and `extract_summary`. Both are early-return searches, written as recursive functions.
- `Upload` covers `allowed_file` and `ALLOWED_EXTENSIONS`.
- `Resume` holds the record and `parse_resume_data`. The record invariant `WellFormed` is proved for every record the parser can produce.

## Model

| member | source | states |
|---|---|---|
| Strings.LowerFixedPoints | utils/pdf_parser.py:46 | a lower-cased string has no upper-case letter; lower-casing changes a string exactly when it has one; doing it twice is doing it once |
| Strings.Contains | utils/pdf_parser.py:46 | definition of `sub in s`: `sub` is a prefix of `s` or occurs in its tail; characterised by `ContainsIff` |
| Strings.ContainsIff | utils/pdf_parser.py:46 | `sub in s` holds exactly when `sub` occurs in `s` at some index |
| Strings.MentionsAny | utils/pdf_parser.py:211 | definition of `any(w in line.lower() for w in words)`: some word occurs in the lower-cased line |
| Strings.Strip | utils/pdf_parser.py:45 | definition of `strip()`: leading whitespace removed, then trailing; characterised by `StripSpec` |
| Strings.StripSpec | utils/pdf_parser.py:45 | the stripped text is a piece of the line with only whitespace before and after it, and it neither starts nor ends with whitespace |
| Strings.Split | utils/pdf_parser.py:207 | at least one piece, none containing the separator |
| Strings.Join | utils/pdf_parser.py:228 | definition of `sep.join`: the pieces in order with one separator between neighbours; inverse of `Split` by `JoinSplit` and `SplitJoin` |
| Strings.JoinSplit | utils/pdf_parser.py:228 | joining the pieces of a split gives the string back |
| Strings.SplitJoin | utils/pdf_parser.py:228 | splitting a join gives the pieces back when none contains the separator |
| Strings.Words | utils/pdf_parser.py:48 | `split()`: no word is empty; the lemmas below characterise it completely |
| Strings.WordsAreWords | utils/pdf_parser.py:48 | every word is non-empty and free of whitespace |
| Strings.WordsKeepText | utils/pdf_parser.py:48 | the words put together are the non-whitespace characters of the text, in order |
| Strings.WordsSkipSpace | utils/pdf_parser.py:48 | leading whitespace yields no word |
| Strings.WordsAfterWord | utils/pdf_parser.py:48 | a whitespace-free run followed by whitespace or the end of the text is the first word, and splitting resumes after it |
| Strings.WordsOfJoin | utils/pdf_parser.py:48 | words joined with single spaces split back into the same words |
| Strings.Remove | utils/pdf_parser.py:49 | the removed character no longer occurs and nothing else is introduced |
| Strings.RemoveSpec | utils/pdf_parser.py:49 | every other character is kept as often as it occurs; a string without the character comes back unchanged |
| Strings.Take | utils/pdf_parser.py:122 | a prefix of length min(len, n) |
| Sections.Lines | utils/pdf_parser.py:207 | at least one line, none containing a line break |
| Sections.FirstMention | utils/pdf_parser.py:210-213 | the first line at or after `from` that mentions a word, or the line count when none does |
| Sections.FirstMentionIs | utils/pdf_parser.py:210-226 | any index with the first-mention property is the one `FirstMention` returns |
| Sections.SectionOf | utils/pdf_parser.py:205-228 | definition of the section: the lines from the first keyword line up to the next major-section line, joined with line breaks; `""` when no line has a keyword |
| Sections.ExtractSection | utils/pdf_parser.py:205-228 | the two scanning loops give exactly `SectionOf` |
| Sections.SectionEmptyIff | utils/pdf_parser.py:207-216 | the section is empty exactly when no line mentions a keyword |
| Sections.SectionSlice | utils/pdf_parser.py:218-228 | a non-empty section is the contiguous run of lines from the first keyword line; no later line of it names a major section; it stops at a line that does or at the end; re-splitting it gives those lines |
| SectionParsers.IsTitle | utils/pdf_parser.py:107 | definition of a title line: an upper-case letter and at least two whitespace-separated words |
| SectionParsers.Body | utils/pdf_parser.py:116-117 | definition of the description after a title: each later non-blank, non-title line stripped and followed by a space, up to the next title |
| SectionParsers.Entries | utils/pdf_parser.py:101-121 | reference definition of the entries: one per title line, in order, with the body that follows it |
| SectionParsers.TitleLines | utils/pdf_parser.py:102-107 | definition: the stripped title lines, in order |
| SectionParsers.AccumulateEntries | utils/pdf_parser.py:101-121 | the loop with its open entry produces exactly `Entries(lines)` |
| SectionParsers.EntriesFollowTitles | utils/pdf_parser.py:107-115 | one entry per title line, in document order |
| SectionParsers.TitleLinesAreTitles | utils/pdf_parser.py:102-107 | every title is a stripped line of the input with an upper-case letter and at least two words |
| SectionParsers.BodyEndsInSpace | utils/pdf_parser.py:117 | a description is empty or ends in a space |
| SectionParsers.DescriptionsEndInSpace | utils/pdf_parser.py:116-117 | every entry's description is empty or ends in a space |
| SectionParsers.LeadingLinesDropped | utils/pdf_parser.py:116 | lines before the first title contribute nothing |
| SectionParsers.HeaderIsFirstTitle | utils/pdf_parser.py:107 | a section header that reads as a title becomes the first entry's title |
| SectionParsers.KeptEntries | utils/pdf_parser.py:122 | at most three entries are kept, the leading ones, with titles and descriptions as above |
| SectionParsers.ExperienceFrom | utils/pdf_parser.py:97-122 | definition: the first three entries as experience records with empty company and duration |
| SectionParsers.ExperienceFromShape | utils/pdf_parser.py:101-122 | entries cut from section lines: at most three, titled by the leading title lines in order, company and duration empty, description empty or ending in a space |
| SectionParsers.ProjectsFrom | utils/pdf_parser.py:180-203 | definition: the first three entries as project records with empty technologies |
| SectionParsers.ProjectsFromShape | utils/pdf_parser.py:184-203 | projects cut from section lines: at most three, named by the leading title lines in order, technologies empty, description empty or ending in a space |
| SectionParsers.ExperienceOf | utils/pdf_parser.py:91-122 | definition of `extract_experience`'s result: `[]` without a section, otherwise `ExperienceFrom` of its lines |
| SectionParsers.ExtractExperience | utils/pdf_parser.py:91-122 | the method yields exactly `ExperienceOf(text)` |
| SectionParsers.ExperienceShape | utils/pdf_parser.py:93-122 | no section gives `[]`; at most three entries; titles are the section's leading title lines in order; company and duration empty; description empty or ending in a space |
| SectionParsers.ProjectsOf | utils/pdf_parser.py:174-203 | definition of `extract_projects`'s result: `[]` without a section, otherwise `ProjectsFrom` of its lines |
| SectionParsers.ExtractProjects | utils/pdf_parser.py:174-203 | the method yields exactly `ProjectsOf(text)` |
| SectionParsers.ProjectsShape | utils/pdf_parser.py:176-203 | no section gives `[]`; at most three projects named by leading title lines in order; technologies empty; description empty or ending in a space |
| SectionParsers.IsDegreeLine | utils/pdf_parser.py:135 | definition: a non-empty line naming bachelor, master, degree, university or college |
| SectionParsers.DegreeLines | utils/pdf_parser.py:133-140 | reference definition: the stripped degree lines, in order |
| SectionParsers.EducationOf | utils/pdf_parser.py:124-142 | definition of `extract_education`'s result: `[]` without a section, otherwise one record per degree line |
| SectionParsers.ExtractEducation | utils/pdf_parser.py:124-142 | the loop yields exactly `EducationOf(text)` |
| SectionParsers.DegreeLinesMembers | utils/pdf_parser.py:133-140 | a line is kept exactly when it is a stripped section line that is non-empty and names a degree word |
| SectionParsers.EducationShape | utils/pdf_parser.py:126-142 | no section gives `[]`; institution and year empty; a degree is reported exactly when it is such a line; no cap |
| Skills.VocabularyHits | utils/pdf_parser.py:161-163 | definition: the title-cased vocabulary words occurring in the lower-cased section, in vocabulary order |
| Skills.Pieces | utils/pdf_parser.py:168-169 | definition: the stripped comma-separated parts of a line that has a comma, none otherwise |
| Skills.CommaPieces | utils/pdf_parser.py:166-170 | definition: the pieces of every line, in line order |
| Skills.Candidates | utils/pdf_parser.py:158-170 | definition: vocabulary hits followed by comma pieces, duplicates included |
| Skills.SkillsFit | utils/pdf_parser.py:144-172 | definition of an admissible result: `[]` without a section; otherwise distinct candidates, min(10, distinct candidates) of them, all of them when there are at most ten |
| Skills.FindVocabulary | utils/pdf_parser.py:158-163 | the loop yields the title-cased vocabulary words found in the lower-cased section, in vocabulary order |
| Skills.FindCommaPieces | utils/pdf_parser.py:166-170 | the loop yields the stripped pieces of every comma-containing line, in line order |
| Skills.CollectCandidates | utils/pdf_parser.py:158-170 | both loops together yield exactly `Candidates(section)` |
| Skills.TakeFromSet | utils/pdf_parser.py:172 | whatever order the set is read in: distinct, drawn from the input, min(cap, distinct count) long, and everything when that count is within the cap |
| Skills.ExtractSkills | utils/pdf_parser.py:144-172 | no section gives `[]`; otherwise a distinct selection of min(10, distinct candidates) candidates, all of them when there are at most ten |
| Skills.CandidateSources | utils/pdf_parser.py:159-170 | a candidate is exactly a title-cased vocabulary word occurring in the lower-cased section or a stripped piece of a comma line |
| Skills.VocabularyHitsMembers | utils/pdf_parser.py:161-163 | a vocabulary hit is exactly the title-cased form of a vocabulary word occurring in the text |
| Skills.CommaPiecesMembers | utils/pdf_parser.py:166-170 | a comma piece is exactly a piece of some comma-containing line |
| Skills.PiecesHaveNoComma | utils/pdf_parser.py:168-170 | a piece comes from a comma line and is a stripped comma-free part of it |
| Contact.RunEnd | utils/pdf_parser.py:55 | the greedy run of a character class: all members up to the end, a non-member (or the end of the text) after |
| Contact.LastBoundary | utils/pdf_parser.py:55 | the largest end position in the range that lies at a word boundary: no boundary between it and the top of the range; none when no position in range is one |
| Contact.SuffixEnd | utils/pdf_parser.py:55 | a match end after the `.`: at least two suffix characters, at a word boundary |
| Contact.DotSearch | utils/pdf_parser.py:55 | the `.` used lies in the domain range, and the match ends after at least two suffix characters at a word boundary |
| Contact.DotSearchLongest | utils/pdf_parser.py:55 | whenever some `.` in range can end a match at `e`, the right-to-left dot search ends at `e` or later |
| Contact.EmailEndAt | utils/pdf_parser.py:55 | whatever the backtracking search returns is a match of the email pattern |
| Contact.EmailEndAtLongest | utils/pdf_parser.py:55 | wherever the pattern can match from a position, the search finds a match there, and none ends later than the one it returns |
| Contact.FirstEmail | utils/pdf_parser.py:56 | the first reported match lies within the text, is a pattern match, and is the search's match at its start |
| Contact.FirstEmailIsLeftmost | utils/pdf_parser.py:56 | no match exactly when no position starts one; otherwise no match starts earlier |
| Contact.FirstEmailIsLongest | utils/pdf_parser.py:56 | no match at the reported start ends after the reported end |
| Contact.ExtractEmail | utils/pdf_parser.py:53-57 | definition of `extract_email`: the text of the first match, or `""` |
| Contact.ExtractEmailSpec | utils/pdf_parser.py:53-57 | `""` exactly when nothing matches; otherwise the longest match at the leftmost start, a piece of the text shaped as an address |
| Contact.MatchIsEmailText | utils/pdf_parser.py:55 | the text of a match is a local part, `@`, a domain, `.` and a suffix of at least two characters |
| Contact.EmailHasOneAt | utils/pdf_parser.py:55 | a matched address has exactly one `@` and a `.` after it |
| Contact.PrefixGroup | utils/pdf_parser.py:62 | definition of the optional group `(\+\d{1,3}[-.\s]?)`, tried with the most digits first and the separator before none |
| Contact.GroupAt | utils/pdf_parser.py:62 | definition: the group `findall` reports for a match at a position, `""` when the match skips the group |
| Contact.FirstGroup | utils/pdf_parser.py:67-70 | definition: the group of the leftmost match |
| Contact.SevenEnd | utils/pdf_parser.py:64 | a match of `\d{3}[-.\s]?\d{4}` spans at least seven characters and lies in the text |
| Contact.BracketedEnd | utils/pdf_parser.py:64 | a match of pattern 3 is non-empty and lies in the text |
| Contact.FirstBracketed | utils/pdf_parser.py:64-70 | definition: the text of the leftmost match of pattern 3 |
| Contact.ExtractPhone | utils/pdf_parser.py:59-71 | definition of `extract_phone`: the first pattern that matches decides, its group or whole match is returned, `""` when none matches |
| Contact.PrefixGroupShape | utils/pdf_parser.py:62 | the captured group is `+`, one to three digits and at most one separator |
| Contact.PlainPrefixIsArea | utils/pdf_parser.py:62-63 | where pattern 2 captures a group, pattern 1 does too |
| Contact.BracketedIsArea | utils/pdf_parser.py:62-64 | where pattern 3 matches, pattern 1's number part matches |
| Contact.LaterPatternsImplyFirst | utils/pdf_parser.py:61-70 | whenever pattern 2 or 3 matches somewhere, pattern 1 matches somewhere |
| Contact.OnlyFirstPatternCounts | utils/pdf_parser.py:66-71 | the result is pattern 1's first reported group, or `""` |
| Contact.FirstGroupShape | utils/pdf_parser.py:62-70 | pattern 1's first reported group is `""` or a dialling prefix, and `""` when the text has no `+` |
| Contact.PhoneIsPrefixOnly | utils/pdf_parser.py:59-71 | the phone is `""` or `+` with one to three digits and at most one separator; always `""` without a `+` |
| Contact.BareNumberGivesEmpty | utils/pdf_parser.py:62-70 | `555-123-4567` matches pattern 1 yet yields `""` |
| Heading.LooksLikeName | utils/pdf_parser.py:45-49 | definition: a non-empty stripped line with no contact word and two to four words, each alphabetic once its dots are removed |
| Heading.NameAmong | utils/pdf_parser.py:44-51 | definition: the first line whose stripped form looks like a name, stripped, or the default |
| Heading.ExtractName | utils/pdf_parser.py:40-51 | definition of `extract_name`: the name search over the first five lines |
| Heading.NameAmongSpec | utils/pdf_parser.py:44-51 | the earliest line whose stripped form looks like a name wins; the default only when none does |
| Heading.NameAmongNone | utils/pdf_parser.py:44-51 | when no line looks like a name, the result is `"Your Name"` |
| Heading.NameAmongFirst | utils/pdf_parser.py:44-50 | the earliest line that looks like a name is returned, stripped |
| Heading.ExtractNameSpec | utils/pdf_parser.py:40-51 | the same over the first five lines of the text |
| Heading.NameAmongShape | utils/pdf_parser.py:44-51 | the result is the default or a stripped line that looks like a name |
| Heading.NameShape | utils/pdf_parser.py:42-50 | a reported name is the default, or one of the first five lines stripped, with no contact word and two to four alphabetic words |
| Heading.Followers | utils/pdf_parser.py:80-84 | the leading run of summary lines, stripped, stopping at the first line that is blank or names experience/education/skills |
| Heading.FollowersOf | utils/pdf_parser.py:82 | definition: the followers among the (at most four) lines after a heading |
| Heading.Introduces | utils/pdf_parser.py:79-84 | definition: a line naming a summary keyword whose next line is a summary line |
| Heading.SummaryFrom | utils/pdf_parser.py:78-89 | definition of the search: the space-join of the first non-empty run of followers of a summary heading, or `""` |
| Heading.ExtractSummary | utils/pdf_parser.py:73-89 | definition of `extract_summary`: the search from the first line |
| Heading.FollowersRun | utils/pdf_parser.py:79-84 | a non-empty run after a heading is one to four summary lines, stopping where the next line is not one or four are taken |
| Heading.FollowersStripped | utils/pdf_parser.py:80-82 | the run lies within the text and is the stripped text of the lines right after the heading |
| Heading.IntroducesIff | utils/pdf_parser.py:78-84 | a heading yields a summary exactly when it names a summary keyword and its first follower is a summary line |
| Heading.SummaryAtHeading | utils/pdf_parser.py:78-88 | a summary heading with followers ends the search: the result is the space-join of its stripped run |
| Heading.SummaryEmptyIff | utils/pdf_parser.py:77-89 | the search from a line on is empty exactly when no later heading introduces a summary |
| Heading.SummaryFromSpec | utils/pdf_parser.py:78-89 | a non-empty result is the space-join of the stripped run of the first heading that introduces a summary |
| Heading.ExtractSummarySpec | utils/pdf_parser.py:73-89 | empty exactly when no heading is directly followed by a summary line; otherwise the space-join of the first such heading's run |
| Upload.Extension | app.py:21 | definition of `rsplit('.', 1)[1]`: the last piece of the split on `.` |
| Upload.AllowedFile | app.py:20-21 | definition of `allowed_file`: a dot, and a lower-cased extension in the allowed set |
| Upload.ExtensionAfterLastDot | app.py:21 | the extension is exactly the text after the last dot, whatever precedes it |
| Upload.LastDot | app.py:21 | every name with a dot splits at its last dot into a stem and a dot-free extension |
| Upload.AllowedFileSpec | app.py:18-21 | `stem.ext` is accepted exactly when `ext` lower-cased is `pdf`; the stem is not looked at |
| Upload.AllowedFileByExtension | app.py:20-21 | a name is accepted exactly when it splits at its last dot into a stem and an extension that is `pdf` in any case; no dot means refused |
| Upload.DoubleExtensionRefused | app.py:21 | any name ending in `.pdf.exe`, such as `resume.pdf.exe`, is refused |
| Upload.PdfSuffixAccepted | app.py:18-21 | any name ending in `.pdf` or `.PDF` is accepted whatever precedes the dot: `a.b.pdf`, `CV.PDF`, `.pdf` |
| Upload.EmptyExtensionRefused | app.py:18-21 | a name ending in a dot, such as `x.`, is refused |
| Resume.ParseResumeData | utils/pdf_parser.py:26-38 | each field is its extractor's result; the record is well formed |
| Resume.ParsedIsWellFormed | utils/pdf_parser.py:26-38 | every record the parser can produce has a real or default name, an address-shaped or empty email, an empty or prefix-only phone, at most three experiences and three projects with unused fields empty, degree lines as degrees, and at most ten distinct skills |
| Resume.NameIsOk | utils/pdf_parser.py:29 | the name field is a real name or the default |
| Resume.EmailIsOk | utils/pdf_parser.py:30 | the email field is empty or address-shaped |
| Resume.ExperienceIsOk | utils/pdf_parser.py:107-122 | at most three experiences, titled by title lines, company and duration empty |
| Resume.EducationIsOk | utils/pdf_parser.py:133-140 | every education entry is a degree line with institution and year empty |
| Resume.ProjectsAreOk | utils/pdf_parser.py:189-203 | at most three projects, named by title lines, technologies empty |

## Left out

- `extract_text_from_pdf` (PDF reading through two libraries with an exception fallback) is not part of this model. The parser starts from the extracted text.
- `utils/html_generator.py` (the language-model call and the HTML templating) and the Flask routes of `app.py` (upload handling, file storage, identifiers, redirects) are not part of this model.
- String operations are modelled on ASCII only. Python's Unicode behaviour of `lower`, `isupper`, `isalpha`, `strip`, `split()`, `title` and of `\w`/`\d`/`\s` in patterns is not modelled. The title-cased vocabulary is a fixed table.
- Skills.ExtractSkills: the order in which Python's set yields its elements is not modelled. The contract fixes which skills may appear and how many, not their order or which ten are kept when there are more.
- Only the two email and phone patterns are modelled, as hand-written searches; the regular-expression engine in general is not.
