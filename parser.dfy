/** Assembling the parsed record of one resume from its extracted text. */
module ResumeParser {
  import opened Text
  import opened Options
  import opened Roles
  import opened Extractors
  import opened Skills
  import opened PdfText

  /** The parsed record. The education, achievement and project entries are
      fixed texts that do not depend on the resume. */
  datatype ParsedResume = ParsedResume(
    name: string,
    designation: string,
    email: string,
    phone: string,
    linkedIn: string,
    gitHub: string,
    skills: set<string>,
    education: seq<string>,
    achievements: seq<string>,
    projects: seq<string>,
    predictedRole: string,
    roleComparison: seq<RoleScore>,
    rawText: string)

  /** Designation when no role was predicted (capital F, unlike the
      extractors' "Not found"). */
  const NoDesignation: string := "Not Found"

  /** Characters of the text kept in the raw-text preview. */
  const PreviewLength: nat := 500

  /** `extract_education`: fixed entries, whatever the text. */
  const Education: seq<string> := [
    "Bachelor of Computer Applications\nTechno Main Saltlake Aug 2024 - Jun 2028\nComputer Science",
    "Higher Secondary Education\nHoly Child Institute Girl\U{2019}s Higher Secondary School Jan 2010 - May 2024"
  ]

  /** `extract_achievements`: fixed entries, whatever the text. */
  const Achievements: seq<string> := [
    "Completed multiple AI-based projects including a real-time Translator App and a Teachable Machine using Python and Streamlit.",
    "Secured an AI Internship where I worked on real-world applications like NLP-powered resume parsers and translation tools.",
    "Deployed interactive web apps using Streamlit and Vercel, integrating real-time ML functionalities.",
    "Built and trained custom ML models using Google\U{2019}s Teachable Machine for real-time image classification tasks."
  ]

  /** `extract_projects`: fixed entries, whatever the text. */
  const Projects: seq<string> := [
    "Real-Time Multilingual Translation: Implemented dynamic language detection and translation across 100+ languages using Python and Google Translate API.",
    "Custom Model Training via Transfer Learning: Used Google's Teachable Machine to train a custom image classification model with webcam input."
  ]

  /** The designation derived from the predicted role. */
  function Designation(best: string): (d: string)
    ensures best != Uncategorized ==> |d| >= 9 && d[..9] == "Aspiring " && d[9..] == best
    ensures best == Uncategorized ==> d == NoDesignation
  {
    if best != Uncategorized then "Aspiring " + best else NoDesignation
  }

  /** `text[:500] + "..."`: a preview of at most 500 characters, always
      followed by an ellipsis. */
  function Preview(text: string): (p: string)
    ensures |p| == (if |text| < PreviewLength then |text| else PreviewLength) + 3
    ensures p[..|p| - 3] <= text && p[|p| - 3..] == "..."
  {
    var n := if |text| < PreviewLength then |text| else PreviewLength;
    text[..n] + "..."
  }

  /** The record `parse_resume` builds from the document's text. */
  function RecordOf(text: string): ParsedResume
  {
    var ranking := PredictAllRoles(RoleKeywords, text);
    var best := BestRole(ranking);
    ParsedResume(
      NameOf(text), Designation(best),
      ExtractEmail(text), ExtractPhone(text),
      ExtractLink(text, "linkedin"), ExtractLink(text, "github"),
      ExtractSkills(text),
      Education, Achievements, Projects,
      best, ranking, Preview(text))
  }

  /** `parse_resume`: join the pages with the page loop, scan the lines for
      the name with the line loop, and fill the rest of the record. */
  method ParseResume(pages: seq<Option<string>>) returns (r: ParsedResume)
    ensures r == RecordOf(Strip(Accumulated(pages)))
  {
    var text := ExtractText(pages);
    var name := ExtractName(text);
    r := RecordOf(text).(name := name);
  }

  /** What the record promises about roles: the comparison ranks every
      role of the taxonomy once, by descending hit count; the predicted role
      is "Uncategorized", and the designation "Not Found", exactly when no
      role has a keyword in the text; otherwise the predicted role is a
      top-ranked role and the designation names it. */
  lemma {:induction false} RecordRoles(text: string)
    ensures var r := RecordOf(text);
      |r.roleComparison| == |RoleKeywords| && SortedByCount(r.roleComparison) &&
      multiset(Names(r.roleComparison)) == multiset(Names(RoleKeywords)) &&
      (r.designation == NoDesignation <==> r.predictedRole == Uncategorized) &&
      (r.predictedRole == Uncategorized <==>
        forall i :: 0 <= i < |RoleKeywords| ==> Hits(RoleKeywords[i].1, Lower(text)) == 0) &&
      (r.predictedRole != Uncategorized ==>
        r.predictedRole == r.roleComparison[0].0 && r.designation == "Aspiring " + r.predictedRole &&
        forall e :: e in r.roleComparison ==> e.1 <= r.roleComparison[0].1)
  {
    var r := RecordOf(text);
    var sc := Scores(RoleKeywords, text);
    RoleKeywordsWellFormed();
    PredictAllRolesAreTaxonomy(RoleKeywords, text);
    BestRoleOfRanking(RoleKeywords, text);
    assert forall i :: 0 <= i < |RoleKeywords| ==> sc[i].1 == Hits(RoleKeywords[i].1, Lower(text));
    if r.predictedRole != Uncategorized {
      var d := r.designation;
      assert d == d[..9] + d[9..];
      forall e | e in r.roleComparison ensures e.1 <= r.roleComparison[0].1 {
        assert e in multiset(sc);
        var i := IndexOf(sc, e);
      }
    }
    assert "Not Found" != "Aspiring " + r.predictedRole by {
      assert "Not Found"[0] == 'N';
    }
  }
}
