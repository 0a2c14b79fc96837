/**
 * The parsed resume record: eight fields, each filled by its own extractor
 * from the same text.
 */
module Resume {
  import opened Strings
  import opened SectionParsers
  import opened Skills
  import opened Contact
  import opened Heading

  datatype ResumeData = ResumeData(
    name: string,
    email: string,
    phone: string,
    summary: string,
    experience: seq<Experience>,
    education: seq<Education>,
    skills: seq<string>,
    projects: seq<Project>)

  /** A reported name is a real one or the default. */
  predicate NameOk(name: string) { name == DefaultName || LooksLikeName(name) }

  /** Experience entries: at most three, titled by title lines, with
      company and duration left empty. */
  predicate ExperienceOk(ex: seq<Experience>) {
    |ex| <= MaxEntries && forall e :: e in ex ==> e.company == "" && e.duration == "" && IsTitle(e.title)
  }

  /** Education entries: degree lines, with institution and year left empty. */
  predicate EducationOk(ed: seq<Education>) {
    forall e :: e in ed ==> e.institution == "" && e.year == "" && IsDegreeLine(e.degree)
  }

  /** Projects: at most three, named by title lines, technologies left empty. */
  predicate ProjectsOk(ps: seq<Project>) {
    |ps| <= MaxEntries && forall p :: p in ps ==> p.technologies == "" && IsTitle(p.name)
  }

  /** What every parsed record looks like, whatever the text: a real or the
      default name, an address-shaped email or none, at most a dialling
      prefix as phone, at most three experience and three project entries
      with their unused fields empty and title lines as titles, degree lines
      as degrees, and at most ten distinct skills. */
  ghost predicate WellFormed(d: ResumeData) {
    NameOk(d.name) &&
    (d.email == "" || IsEmailText(d.email)) &&
    (d.phone == "" || IsDialPrefix(d.phone)) &&
    ExperienceOk(d.experience) &&
    EducationOk(d.education) &&
    |d.skills| <= MaxSkills && Distinct(d.skills) &&
    ProjectsOk(d.projects)
  }

  /** `parse_resume_data` */
  method ParseResumeData(text: string) returns (data: ResumeData)
    ensures data.name == ExtractName(text)
    ensures data.email == ExtractEmail(text)
    ensures data.phone == ExtractPhone(text)
    ensures data.summary == ExtractSummary(text)
    ensures data.experience == ExperienceOf(text)
    ensures data.education == EducationOf(text)
    ensures SkillsFit(text, data.skills)
    ensures data.projects == ProjectsOf(text)
    ensures WellFormed(data)
  {
    var experience := ExtractExperience(text);
    var education := ExtractEducation(text);
    var skills := ExtractSkills(text);
    var projects := ExtractProjects(text);
    data := ResumeData(ExtractName(text), ExtractEmail(text), ExtractPhone(text), ExtractSummary(text),
                       experience, education, skills, projects);
    ParsedIsWellFormed(text, skills);
  }

  /** Any record the parser may produce for `text` is well formed. */
  lemma ParsedIsWellFormed(text: string, skills: seq<string>)
    requires SkillsFit(text, skills)
    ensures WellFormed(ResumeData(ExtractName(text), ExtractEmail(text), ExtractPhone(text), ExtractSummary(text),
                                  ExperienceOf(text), EducationOf(text), skills, ProjectsOf(text)))
  {
    NameIsOk(text);
    EmailIsOk(text);
    PhoneIsPrefixOnly(text);
    ExperienceIsOk(text);
    EducationIsOk(text);
    SkillsAreOk(text, skills);
    ProjectsAreOk(text);
  }

  lemma NameIsOk(text: string)
    ensures NameOk(ExtractName(text))
  {
    NameShape(text);
  }

  lemma EmailIsOk(text: string)
    ensures ExtractEmail(text) == "" || IsEmailText(ExtractEmail(text))
  {
    ExtractEmailSpec(text);
  }

  lemma SkillsAreOk(text: string, skills: seq<string>)
    requires SkillsFit(text, skills)
    ensures |skills| <= MaxSkills && Distinct(skills)
  {
  }

  lemma ExperienceIsOk(text: string)
    ensures ExperienceOk(ExperienceOf(text))
  {
    ExperienceShape(text);
    forall e | e in ExperienceOf(text) ensures e.company == "" && e.duration == "" && IsTitle(e.title) {
      var k :| 0 <= k < |ExperienceOf(text)| && ExperienceOf(text)[k] == e;
    }
  }

  lemma EducationIsOk(text: string)
    ensures EducationOk(EducationOf(text))
  {
    EducationShape(text, "");
    forall e | e in EducationOf(text) ensures e.institution == "" && e.year == "" && IsDegreeLine(e.degree) {
      var k :| 0 <= k < |EducationOf(text)| && EducationOf(text)[k] == e;
    }
  }

  lemma ProjectsAreOk(text: string)
    ensures ProjectsOk(ProjectsOf(text))
  {
    ProjectsShape(text);
    forall p | p in ProjectsOf(text) ensures p.technologies == "" && IsTitle(p.name) {
      var k :| 0 <= k < |ProjectsOf(text)| && ProjectsOf(text)[k] == p;
    }
  }
}
