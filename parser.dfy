/** The text-structuring body of `parseResume`: once the text of the uploaded
    document is available, the sections are located and every field of the
    answer record is filled in from the text. */
module Parser {
  import opened Text
  import Sections
  import Patterns
  import Personal
  import Skills
  import Entries
  import Blocks

  /** The fixed tables the parser reads: the section keywords and the skills dictionary. */
  datatype Config = Config(sections: Sections.SectionTable, dictionary: seq<string>)

  const DefaultConfig := Config(Sections.DefaultSections, Skills.DefaultDictionary)

  /** The record sent back to the client. */
  datatype Resume = Resume(
    personalInfo: Personal.PersonalInfo,
    summary: string,
    experience: seq<Entries.Experience>,
    education: seq<Entries.Education>,
    skills: seq<string>)

  /** The record the parser builds from `text`. */
  function Structure(text: string, config: Config): Resume {
    var anchors := Sections.SectionAnchors(text, config.sections);
    Resume(
      Personal.ExtractPersonalInfo(text),
      Sections.ExtractSectionText(text, Sections.Summary, anchors),
      Entries.ExtractExperience(Sections.ExtractSectionText(text, Sections.Experience, anchors)),
      Entries.ExtractEducation(Sections.ExtractSectionText(text, Sections.Education, anchors)),
      Skills.Skills(text, Sections.ExtractSectionText(text, Sections.Skills, anchors), config.dictionary))
  }

  /** The parser as written: the record starts with an empty personal-info
      object, the summary slice and empty lists, and its fields are then set
      one after the other. */
  method ParseResume(text: string, config: Config) returns (resume: Resume)
    ensures resume == Structure(text, config)
  {
    var anchors := Sections.IdentifySections(text, config.sections);
    resume := Resume(Personal.PersonalInfo(None, None, None),
      Sections.ExtractSectionText(text, Sections.Summary, anchors), [], [], []);

    var info := Personal.FillPersonalInfo(text);
    resume := resume.(personalInfo := info);

    var skillsText := Sections.ExtractSectionText(text, Sections.Skills, anchors);
    var skills := Skills.CollectSkills(text, skillsText, config.dictionary);
    resume := resume.(skills := skills);

    var expText := Sections.ExtractSectionText(text, Sections.Experience, anchors);
    if expText != [] {
      resume := resume.(experience := Entries.ExtractExperience(expText));
    }
    var eduText := Sections.ExtractSectionText(text, Sections.Education, anchors);
    if eduText != [] {
      resume := resume.(education := Entries.ExtractEducation(eduText));
    }
  }
  /** A document without header lines gets an empty summary and no
      experience or education entries. */
  lemma NoHeadersNoSections(text: string, config: Config)
    requires forall j | 0 <= j < |Sections.Lines(text)| :: Sections.Classify(Sections.Lines(text)[j], config.sections).None?
    ensures var r := Structure(text, config);
      r.summary == [] && r.experience == [] && r.education == []
  {
    var lines := Sections.Lines(text);
    forall j | 0 <= j < |lines| ensures Sections.LineKinds(lines, config.sections)[j].None? {
      Sections.LineKindsAt(lines, config.sections, j);
    }
    Sections.NoHeadersNoSlices(text, config.sections, Sections.Summary);
    Sections.NoHeadersNoSlices(text, config.sections, Sections.Experience);
    Sections.NoHeadersNoSlices(text, config.sections, Sections.Education);
  }

  /** The empty text yields no personal information. */
  lemma EmptyTextPersonalInfo(text: string)
    requires text == ""
    ensures Personal.ExtractPersonalInfo(text) == Personal.PersonalInfo(None, None, None)
  {
    assert Sections.Lines(text) == [""];
    assert Trim("") == "";
    assert Patterns.EmailAt(text, 0).None?;
    Patterns.PhoneAlternativesShape();
    Patterns.PhoneSpec(text);
  }

  /** A dictionary of non-empty terms finds nothing in the empty text. */
  lemma EmptyTextNoSkills(text: string, dictionary: seq<string>)
    requires text == ""
    requires forall d | d in dictionary :: |d| > 0
    ensures Skills.Skills(text, text, dictionary) == []
  {
    var hits := Skills.DictionaryHits(text, dictionary);
    forall d | d in dictionary ensures !Contains(ToLower(text), ToLower(d)) {
      assert |ToLower(d)| > 0;
    }
    Skills.AddAllGrows([], hits);
  }

  /** The empty text yields the empty record: no personal information, an
      empty summary and no entries or skills, whatever the section keywords,
      as long as no dictionary term is empty. */
  lemma EmptyText(text: string, config: Config)
    requires text == ""
    requires forall d | d in config.dictionary :: |d| > 0
    ensures Structure(text, config) == Resume(Personal.PersonalInfo(None, None, None), "", [], [], [])
  {
    var table := config.sections;
    var lines := Sections.Lines(text);
    assert lines == [""];
    assert Trim("") == "";
    forall j | 0 <= j < |lines| ensures Sections.LineKinds(lines, table)[j].None? {
      Sections.LineKindsAt(lines, table, j);
    }
    NoHeadersNoSections(text, config);
    Sections.NoHeadersNoSlices(text, table, Sections.Skills);
    EmptyTextPersonalInfo(text);
    EmptyTextNoSkills(text, config.dictionary);
  }

  /** With the tables the service ships with, the empty text yields the empty record. */
  lemma EmptyTextDefault()
    ensures Structure("", DefaultConfig) == Resume(Personal.PersonalInfo(None, None, None), "", [], [], [])
  {
    Skills.DefaultDictionaryNonEmpty();
    EmptyText("", DefaultConfig);
  }
}
