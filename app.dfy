/** The per-resume steps of the upload page: the parsed record is annotated
    with its file name, and, when a job description was given, with the job
    description score and a check of the role the description asks for
    against the predicted role. */
module App {
  import opened Text
  import opened Options
  import opened Roles
  import opened JdMatch
  import opened PdfText
  import opened ResumeParser

  /** A role is named in the job description when its lower-cased name is a
      substring of the lower-cased description. */
  predicate NamedIn(role: string, jd: string)
  {
    Contains(Lower(jd), Lower(role))
  }

  /** Entry `p` of the comparison is the first one, in ranking order, whose
      role is named in the job description. */
  predicate FirstNamedAt(cmp: seq<RoleScore>, jd: string, p: nat)
  {
    p < |cmp| && NamedIn(cmp[p].0, jd) && forall j :: 0 <= j < p ==> !NamedIn(cmp[j].0, jd)
  }

  /** The first role of the comparison, in ranking order, named in the job
      description, if any. */
  function DesiredRole(cmp: seq<RoleScore>, jd: string): (r: Option<string>)
    ensures r.None? <==> forall j :: 0 <= j < |cmp| ==> !NamedIn(cmp[j].0, jd)
    ensures r.Some? ==> exists p: nat :: FirstNamedAt(cmp, jd, p) && cmp[p].0 == r.value
  {
    if cmp == [] then None
    else if NamedIn(cmp[0].0, jd) then
      assert FirstNamedAt(cmp, jd, 0);
      Some(cmp[0].0)
    else
      var r := DesiredRole(cmp[1..], jd);
      assert forall j :: 0 < j < |cmp| ==> cmp[j] == cmp[1..][j - 1];
      if r.Some? then
        var p: nat :| FirstNamedAt(cmp[1..], jd, p) && cmp[1..][p].0 == r.value;
        assert FirstNamedAt(cmp, jd, p + 1);
        r
      else
        r
  }

  /** The loop of the page over the role comparison, stopping at the first
      role named in the job description. */
  method FindDesiredRole(cmp: seq<RoleScore>, jd: string) returns (target: Option<string>)
    ensures target == DesiredRole(cmp, jd)
  {
    target := None;
    var lowered := Lower(jd);
    for i := 0 to |cmp|
      invariant target.None?
      invariant forall j :: 0 <= j < i ==> !NamedIn(cmp[j].0, jd)
    {
      if Contains(lowered, Lower(cmp[i].0)) {
        target := Some(cmp[i].0);
        var d := DesiredRole(cmp, jd);
        var p: nat :| FirstNamedAt(cmp, jd, p) && cmp[p].0 == d.value;
        assert p == i;
        break;
      }
    }
  }

  /** Role `t` of the taxonomy is named in the job description and, among
      the named roles, has the highest hit count, and is declared first
      among the named roles with that count. */
  predicate IsTopNamed(tax: Taxonomy, text: string, jd: string, t: nat)
  {
    t < |tax| && NamedIn(tax[t].0, jd) &&
    forall i :: 0 <= i < |tax| && NamedIn(tax[i].0, jd) ==>
      Hits(tax[i].1, Lower(text)) < Hits(tax[t].1, Lower(text)) ||
      (Hits(tax[i].1, Lower(text)) == Hits(tax[t].1, Lower(text)) && t <= i)
  }

  /** The first named entry of the ranking beats every named role of the
      taxonomy on count, and ties only with roles declared no earlier. */
  lemma {:induction false} FirstNamedBeatsNamed(tax: Taxonomy, text: string, jd: string, p: nat, i: nat)
    requires DistinctNames(tax) && i < |tax| && NamedIn(tax[i].0, jd)
    requires FirstNamedAt(PredictAllRoles(tax, text), jd, p)
    ensures var r, sc := PredictAllRoles(tax, text), Scores(tax, text);
      r[p] in sc && (sc[i].1 < r[p].1 || (sc[i].1 == r[p].1 && IndexOf(sc, r[p]) <= i))
  {
    var r, sc := PredictAllRoles(tax, text), Scores(tax, text);
    assert r[p] in multiset(sc);
    var t := IndexOf(sc, r[p]);
    assert sc[i] in multiset(r);
    var q := IndexOf(r, sc[i]);
    assert p <= q by {
      assert NamedIn(r[q].0, jd);
    }
    IndexOfIs(r, r[p], p);
    if sc[i].1 == r[p].1 && i < t {
      PredictAllRolesStable(tax, text, i, t);
      assert false;
    }
  }

  /** Over the ranking of a taxonomy with distinct names, the desired role
      is a named role with the highest count among the named roles, and of
      named roles with that count it is the one declared first. */
  lemma {:induction false} DesiredRoleIsTopNamed(tax: Taxonomy, text: string, jd: string)
    requires DistinctNames(tax)
    ensures var d := DesiredRole(PredictAllRoles(tax, text), jd);
      d.Some? ==> exists t: nat :: IsTopNamed(tax, text, jd, t) && tax[t].0 == d.value
  {
    var r, sc := PredictAllRoles(tax, text), Scores(tax, text);
    var d := DesiredRole(r, jd);
    if d.Some? {
      var p: nat :| FirstNamedAt(r, jd, p) && r[p].0 == d.value;
      assert r[p] in multiset(sc);
      var t := IndexOf(sc, r[p]);
      forall i | 0 <= i < |tax| && NamedIn(tax[i].0, jd)
        ensures Hits(tax[i].1, Lower(text)) < Hits(tax[t].1, Lower(text)) ||
          (Hits(tax[i].1, Lower(text)) == Hits(tax[t].1, Lower(text)) && t <= i)
      {
        FirstNamedBeatsNamed(tax, text, jd, p, i);
      }
      assert IsTopNamed(tax, text, jd, t);
    }
  }

  /** Entry `j` is the last entry of the comparison with that role name. */
  predicate LastWithName(cmp: seq<RoleScore>, role: string, j: nat)
  {
    j < |cmp| && cmp[j].0 == role && forall k :: j < k < |cmp| ==> cmp[k].0 != role
  }

  /** `dict(pairs).get(role, 0)`: the count of the last pair with that name,
      or 0 when there is none. */
  function LookupLast(cmp: seq<RoleScore>, role: string): (n: nat)
    ensures (forall j :: 0 <= j < |cmp| ==> cmp[j].0 != role) ==> n == 0
    ensures (exists j :: 0 <= j < |cmp| && cmp[j].0 == role) ==>
      exists j: nat :: LastWithName(cmp, role, j) && n == cmp[j].1
  {
    if cmp == [] then 0
    else if cmp[|cmp| - 1].0 == role then
      assert LastWithName(cmp, role, |cmp| - 1);
      cmp[|cmp| - 1].1
    else
      var init := cmp[..|cmp| - 1];
      var n := LookupLast(init, role);
      assert forall j :: 0 <= j < |init| ==> init[j] == cmp[j];
      if exists j :: 0 <= j < |cmp| && cmp[j].0 == role then
        var j: nat :| LastWithName(init, role, j) && n == init[j].1;
        assert LastWithName(cmp, role, j);
        n
      else
        n
  }

  /** A name present in the comparison is looked up at its last entry. */
  lemma {:induction false} LookupLastFound(cmp: seq<RoleScore>, role: string, j: nat)
    requires j < |cmp| && cmp[j].0 == role
    ensures exists k: nat :: LastWithName(cmp, role, k) && LookupLast(cmp, role) == cmp[k].1
  {
    var n := LookupLast(cmp, role);
    assert exists i :: 0 <= i < |cmp| && cmp[i].0 == role;
    assert exists k: nat :: LastWithName(cmp, role, k) && n == cmp[k].1;
  }

  /** Looked up by the name of a role of the taxonomy, the ranking gives that
      role's count. */
  lemma {:induction false} LookupRankedRole(tax: Taxonomy, text: string, t: nat)
    requires DistinctNames(tax) && t < |tax|
    ensures LookupLast(PredictAllRoles(tax, text), tax[t].0) == Hits(tax[t].1, Lower(text))
  {
    var r := PredictAllRoles(tax, text);
    PredictAllRolesAreTaxonomy(tax, text);
    assert tax[t].0 in multiset(Names(r)) by {
      assert Names(tax)[t] == tax[t].0;
    }
    var j :| 0 <= j < |r| && Names(r)[j] == tax[t].0;
    assert r[j].0 == tax[t].0;
    LookupLastFound(r, tax[t].0, j);
    var k: nat :| LastWithName(r, tax[t].0, k) && LookupLast(r, tax[t].0) == r[k].1;
    assert r[k] in r;
    var i: nat :| ScoreOfRole(tax, text, i, r[k]);
    assert i == t;
  }

  /** The "Role Match Check" entry. */
  datatype RoleMatchCheck = RoleMatchCheck(desiredRole: string, predictedRole: string, matchScore: nat, isMatch: bool)

  /** The role check for a record and a job description: present when the
      description names a role of the comparison whose name is not empty. */
  function RoleCheck(record: ParsedResume, jd: string): (c: Option<RoleMatchCheck>)
    ensures c.Some? <==> DesiredRole(record.roleComparison, jd).Some? && DesiredRole(record.roleComparison, jd).value != []
    ensures c.Some? ==> (c.value.desiredRole == DesiredRole(record.roleComparison, jd).value &&
      c.value.predictedRole == record.predictedRole &&
      (c.value.isMatch <==> c.value.desiredRole == record.predictedRole))
  {
    match DesiredRole(record.roleComparison, jd)
    case Some(target) =>
      if target != [] then
        var predicted := record.predictedRole;
        Some(RoleMatchCheck(target, predicted, LookupLast(record.roleComparison, target), target == predicted))
      else None
    case None => None
  }

  /** For a record whose comparison is the ranking of a taxonomy with
      distinct names, none of them "Uncategorized", and whose predicted role
      is the best role of that ranking: the desired role is the top named
      role, the check's score is its keyword count, and the check reports a
      match exactly when the desired role is ranked first with at least one
      hit. */
  lemma {:induction false} RoleCheckOfRanking(record: ParsedResume, tax: Taxonomy, text: string, jd: string)
    requires DistinctNames(tax) && Uncategorized !in Names(tax)
    requires record.roleComparison == PredictAllRoles(tax, text)
    requires record.predictedRole == BestRole(record.roleComparison)
    ensures var c := RoleCheck(record, jd);
      c.Some? ==> exists t: nat :: (IsTopNamed(tax, text, jd, t) && c.value.desiredRole == tax[t].0 &&
        c.value.matchScore == Hits(tax[t].1, Lower(text)) &&
        (c.value.isMatch <==> c.value.desiredRole == record.roleComparison[0].0 && record.roleComparison[0].1 > 0))
  {
    var c := RoleCheck(record, jd);
    if c.Some? {
      DesiredRoleIsTopNamed(tax, text, jd);
      var t: nat :| IsTopNamed(tax, text, jd, t) && tax[t].0 == c.value.desiredRole;
      LookupRankedRole(tax, text, t);
      assert Names(tax)[t] == tax[t].0;
    }
  }

  /** For a parsed resume: the desired role is the top role named in the
      job description, the check's score is its keyword count, and the check
      reports a match exactly when the desired role is the top-ranked role
      and it has at least one hit. */
  lemma {:induction false} RoleCheckOfRecord(text: string, jd: string)
    ensures var record := RecordOf(text);
      var c := RoleCheck(record, jd);
      c.Some? ==> exists t: nat :: (IsTopNamed(RoleKeywords, text, jd, t) && c.value.desiredRole == RoleKeywords[t].0 &&
        c.value.matchScore == Hits(RoleKeywords[t].1, Lower(text)) &&
        (c.value.isMatch <==> c.value.desiredRole == record.roleComparison[0].0 && record.roleComparison[0].1 > 0))
  {
    RoleKeywordsWellFormed();
    RoleCheckOfRanking(RecordOf(text), RoleKeywords, text, jd);
  }

  /** The page's steps after the score: search the comparison for the desired
      role and, when one with a non-empty name is found, build the check. */
  method CheckRole(record: ParsedResume, jd: string) returns (c: Option<RoleMatchCheck>)
    ensures c == RoleCheck(record, jd)
  {
    var target := FindDesiredRole(record.roleComparison, jd);
    if target.Some? && target.value != [] {
      var predicted := record.predictedRole;
      var matchScore := LookupLast(record.roleComparison, target.value);
      c := Some(RoleMatchCheck(target.value, predicted, matchScore, target.value == predicted));
    } else {
      c := None;
    }
  }

  /** The name of the downloaded JSON file: the parsed name with every space
      replaced by an underscore, then "_parsed.json". */
  function DownloadFileName(name: string): (f: string)
    ensures |f| == |name| + 12 && f[|name|..] == "_parsed.json"
    ensures forall i :: 0 <= i < |name| ==> f[i] == (if name[i] == ' ' then '_' else name[i])
    ensures forall i :: 0 <= i < |f| ==> f[i] != ' '
  {
    ReplaceChar(name, ' ', '_') + "_parsed.json"
  }

  /** The page's `if job_description.strip():` fails: the description is
      empty or all whitespace. */
  predicate IsBlank(s: string)
  {
    Strip(s) == []
  }

  /** One uploaded resume as the page holds it: the parsed record, the
      uploaded file's name, and the two optional job-description entries. */
  class ParsedEntry {
    const record: ParsedResume
    const filename: string
    var jdScore: Option<JdResult>
    var roleMatch: Option<RoleMatchCheck>

    constructor (record: ParsedResume, filename: string)
      ensures this.record == record && this.filename == filename
      ensures jdScore.None? && roleMatch.None?
    {
      this.record := record;
      this.filename := filename;
      jdScore := None;
      roleMatch := None;
    }

    /** Records the job description score of the entry's skills. */
    method ScoreJobDescription(jd: string)
      modifies this
      ensures jdScore == Some(ScoreAgainstJd(record.skills, jd)) && roleMatch == old(roleMatch)
    {
      jdScore := Some(ScoreAgainstJd(record.skills, jd));
    }

    /** Records the role check when the description names a role. */
    method CheckDesiredRole(jd: string)
      modifies this
      ensures roleMatch == (if RoleCheck(record, jd).Some? then RoleCheck(record, jd) else old(roleMatch))
      ensures jdScore == old(jdScore)
    {
      var check := CheckRole(record, jd);
      if check.Some? {
        roleMatch := check;
      }
    }

    /** With a job description that is not blank, the entry gains the job
        description score of its skills and, when the description names a
        role, the role check; a blank description changes nothing. */
    method ApplyJobDescription(jd: string)
      modifies this
      ensures IsBlank(jd) ==> jdScore == old(jdScore) && roleMatch == old(roleMatch)
      ensures !IsBlank(jd) ==> jdScore == Some(ScoreAgainstJd(record.skills, jd))
      ensures !IsBlank(jd) ==>
        roleMatch == (if RoleCheck(record, jd).Some? then RoleCheck(record, jd) else old(roleMatch))
    {
      if !IsBlank(jd) {
        ScoreJobDescription(jd);
        CheckDesiredRole(jd);
      }
    }
  }

  /** The work done for one uploaded file: parse its pages, record its name,
      and apply the job description. */
  method ProcessUpload(pages: seq<Option<string>>, filename: string, jd: string) returns (entry: ParsedEntry)
    ensures fresh(entry)
    ensures entry.record == RecordOf(Strip(Accumulated(pages))) && entry.filename == filename
    ensures entry.jdScore == (if IsBlank(jd) then None else Some(ScoreAgainstJd(entry.record.skills, jd)))
    ensures entry.roleMatch == (if IsBlank(jd) then None else RoleCheck(entry.record, jd))
  {
    var record := ParseResume(pages);
    entry := new ParsedEntry(record, filename);
    entry.ApplyJobDescription(jd);
  }
}
