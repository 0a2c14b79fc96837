/**
 * Skills: the vocabulary words found in the skills section, title-cased,
 * together with the stripped pieces of every comma-containing line of it;
 * duplicates are removed through a set and at most ten are kept, in the
 * set's (unspecified) iteration order.
 */
module Skills {
  import opened Strings
  import opened Sections

  const SkillKeywords: seq<string> := ["skills", "technologies", "technical"]

  /** Cap on the number of skills reported. */
  const MaxSkills: nat := 10

  /** The fixed skill vocabulary, each word paired with its title-cased
      spelling (Python's `str.title`: upper-case after every non-letter). */
  const Vocabulary: seq<(string, string)> := [
    ("python", "Python"), ("javascript", "Javascript"), ("java", "Java"),
    ("c++", "C++"), ("react", "React"), ("angular", "Angular"), ("vue", "Vue"),
    ("html", "Html"), ("css", "Css"), ("sql", "Sql"), ("mongodb", "Mongodb"),
    ("postgresql", "Postgresql"), ("aws", "Aws"), ("azure", "Azure"),
    ("docker", "Docker"), ("kubernetes", "Kubernetes"), ("git", "Git"),
    ("django", "Django"), ("flask", "Flask"), ("nodejs", "Nodejs"),
    ("machine learning", "Machine Learning"), ("data science", "Data Science"),
    ("tensorflow", "Tensorflow"), ("pytorch", "Pytorch")
  ]

  function SkillSection(text: string): string { SectionOf(text, SkillKeywords) }

  /** The title-cased words of `vocab` whose plain spelling occurs in
      `lower`, in vocabulary order. */
  function VocabularyHits(lower: string, vocab: seq<(string, string)>): seq<string> {
    if vocab == [] then []
    else
      var last := vocab[|vocab| - 1];
      VocabularyHits(lower, vocab[..|vocab| - 1]) + (if Contains(lower, last.0) then [last.1] else [])
  }

  /** The stripped comma-separated pieces of a line that has a comma. */
  function Pieces(line: string): seq<string> {
    if ',' in line then StripAll(Split(line, ',')) else []
  }

  /** The pieces of every comma-containing line of `ls`, in order. */
  function CommaPieces(ls: seq<string>): seq<string> {
    if ls == [] then [] else CommaPieces(ls[..|ls| - 1]) + Pieces(ls[|ls| - 1])
  }

  /** Every skill candidate of a section, duplicates included, in the order
      the source collects them. */
  function Candidates(section: string): seq<string> {
    VocabularyHits(Lower(section), Vocabulary) + CommaPieces(Lines(section))
  }

  function Elements(s: seq<string>): set<string> { set x | x in s }

  predicate Distinct(s: seq<string>) {
    forall i, j :: 0 <= i < j < |s| ==> s[i] != s[j]
  }

  /** What any run of the parser may report for `text`: nothing without a
      skills section; otherwise distinct candidates, as many as there are
      distinct candidates but at most ten, and all of them when there are
      no more than ten. */
  predicate SkillsFit(text: string, skills: seq<string>) {
    var section := SkillSection(text);
    if section == "" then skills == []
    else
    Distinct(skills) &&
    (forall x :: x in skills ==> x in Candidates(section)) &&
    |skills| == Min(MaxSkills, |Elements(Candidates(section))|) &&
    (|Elements(Candidates(section))| <= MaxSkills ==>
       forall x :: x in Candidates(section) ==> x in skills)
  }

  method ExtractSkills(text: string) returns (skills: seq<string>)
    ensures SkillsFit(text, skills)
  {
    var section := ExtractSection(text, SkillKeywords);
    if section == "" {
      return [];
    }
    var found := CollectCandidates(section);
    skills := TakeFromSet(found, MaxSkills);
  }

  /** The two collecting loops: vocabulary words first, then comma pieces. */
  method CollectCandidates(section: string) returns (found: seq<string>)
    ensures found == Candidates(section)
  {
    var hits := FindVocabulary(Lower(section));
    var pieces := FindCommaPieces(Lines(section));
    found := hits + pieces;
  }

  /** `for line in lines: if ',' in line: skills.extend(...)` */
  method FindCommaPieces(lines: seq<string>) returns (pieces: seq<string>)
    ensures pieces == CommaPieces(lines)
  {
    pieces := [];
    for i := 0 to |lines|
      invariant pieces == CommaPieces(lines[..i])
    {
      CommaPiecesStep(lines, i);
      if ',' in lines[i] {
        pieces := pieces + StripAll(Split(lines[i], ','));
      } else {
        assert pieces + [] == pieces;
      }
    }
    assert lines[..|lines|] == lines;
  }

  lemma CommaPiecesStep(ls: seq<string>, i: nat)
    requires i < |ls|
    ensures CommaPieces(ls[..i + 1]) == CommaPieces(ls[..i]) + Pieces(ls[i])
  {
    assert ls[..i + 1][..i] == ls[..i];
  }

  /** `for keyword in skill_keywords: if keyword in text_lower: ...` */
  method FindVocabulary(textLower: string) returns (found: seq<string>)
    ensures found == VocabularyHits(textLower, Vocabulary)
  {
    found := [];
    for n := 0 to |Vocabulary|
      invariant found == VocabularyHits(textLower, Vocabulary[..n])
    {
      assert Vocabulary[..n + 1][..n] == Vocabulary[..n];
      var (keyword, titled) := Vocabulary[n];
      if Contains(textLower, keyword) {
        found := found + [titled];
      }
    }
    assert Vocabulary[..|Vocabulary|] == Vocabulary;
  }

  /** `list(set(found))[:cap]`: the set of `found` is read out in an order
      nobody chose, and the first `cap` elements are kept. */
  method TakeFromSet(found: seq<string>, cap: nat) returns (chosen: seq<string>)
    ensures Distinct(chosen)
    ensures forall x :: x in chosen ==> x in found
    ensures |chosen| == Min(cap, |Elements(found)|)
    ensures |Elements(found)| <= cap ==> forall x :: x in found ==> x in chosen
  {
    var pool := Elements(found);
    chosen := [];
    while |chosen| < cap && pool != {}
      invariant pool <= Elements(found)
      invariant Distinct(chosen)
      invariant forall x :: x in chosen ==> x in found && x !in pool
      invariant forall x :: x in found ==> x in pool || x in chosen
      invariant |pool| + |chosen| == |Elements(found)|
      invariant |chosen| <= cap
      decreases |pool|
    {
      var x :| x in pool;
      chosen := chosen + [x];
      pool := pool - {x};
    }
  }

  /** A skill candidate is a title-cased vocabulary word that occurs in the
      lower-cased section, or a stripped piece of one of its comma lines. */
  lemma CandidateSources(section: string, x: string)
    ensures x in Candidates(section) <==>
              (exists k :: 0 <= k < |Vocabulary| && Contains(Lower(section), Vocabulary[k].0) && x == Vocabulary[k].1) ||
              (exists j :: 0 <= j < |Lines(section)| && x in Pieces(Lines(section)[j]))
  {
    VocabularyHitsMembers(Lower(section), Vocabulary, x);
    CommaPiecesMembers(Lines(section), x);
  }

  lemma {:induction false} VocabularyHitsMembers(lower: string, vocab: seq<(string, string)>, x: string)
    ensures x in VocabularyHits(lower, vocab) <==>
              exists k :: 0 <= k < |vocab| && Contains(lower, vocab[k].0) && x == vocab[k].1
  {
    if vocab != [] {
      var init := vocab[..|vocab| - 1];
      VocabularyHitsMembers(lower, init, x);
      assert forall k :: 0 <= k < |init| ==> init[k] == vocab[k];
    }
  }

  lemma {:induction false} CommaPiecesMembers(ls: seq<string>, x: string)
    ensures x in CommaPieces(ls) <==> exists j :: 0 <= j < |ls| && x in Pieces(ls[j])
  {
    if ls != [] {
      var init := ls[..|ls| - 1];
      CommaPiecesMembers(init, x);
      if x in CommaPieces(init) {
        var j :| 0 <= j < |init| && x in Pieces(init[j]);
        assert init[j] == ls[j];
      }
      if exists j :: 0 <= j < |ls| && x in Pieces(ls[j]) {
        var j :| 0 <= j < |ls| && x in Pieces(ls[j]);
        if j < |ls| - 1 {
          assert init[j] == ls[j];
        }
      }
    }
  }

  /** A piece is the stripped text between two commas of its line (or a
      line end), so it never contains a comma. */
  lemma PiecesHaveNoComma(line: string, x: string)
    requires x in Pieces(line)
    ensures ',' in line
    ensures exists p :: p in Split(line, ',') && x == Strip(p) && ',' !in p
  {
    var parts := Split(line, ',');
    var k :| 0 <= k < |parts| && StripAll(parts)[k] == x;
    assert parts[k] in parts;
  }
}
