/** Matching a resume's skills against a free-text job description: the
    description is cut into keywords, the keywords are split into those the
    resume's skills cover and those they miss, and the covered share is the
    score. */
module JdMatch {
  import opened Text

  /** Characters stripped from both ends of each job-description token. */
  const JdPunctuation: set<char> := {',', '.', '(', ')', ':', ';', '-'}

  /** The fixed summary sentence; it does not depend on the score. */
  const JdSummary: string := "This candidate is a good fit based on the job description."

  /** A percentage kept as the exact fraction `100 * hits / total`, read as
      0 when there is nothing to count (no rounding to hundredths). */
  datatype Percentage = Percentage(hits: nat, total: nat)

  /** The job description score, matched and missing keywords, and summary. */
  datatype JdResult = JdResult(score: Percentage, matched: set<string>, missing: set<string>, summary: string)

  /** Keywords are cleaned tokens: lower-cased and with the punctuation
      stripped from their ends. */
  predicate IsCleanKeyword(k: string)
  {
    NoSpace(k) && (forall i :: 0 <= i < |k| ==> !IsUpperChar(k[i])) &&
    (k == [] || (k[0] !in JdPunctuation && k[|k| - 1] !in JdPunctuation))
  }

  lemma {:induction false} TrimOfCleanToken(w: string)
    requires NoSpace(w)
    ensures IsCleanKeyword(Trim(Lower(w), JdPunctuation))
  {
    var lw := Lower(w);
    var k := Trim(lw, JdPunctuation);
    var a, b := TrimSlice(lw, JdPunctuation);
    forall i | 0 <= i < |k| ensures !IsSpace(k[i]) && !IsUpperChar(k[i]) {
      assert k[i] == lw[a + i];
      assert lw[a + i] == ToLower(w[a + i]);
      assert !IsSpace(w[a + i]);
    }
    assert NoSpace(k);
  }

  /** The keyword a token becomes: lower-cased, punctuation stripped. */
  function Keyword(w: string): string
  {
    Trim(Lower(w), JdPunctuation)
  }

  /** The keywords of a token sequence. Only tokens longer than two
      characters are kept, and the length is that of the raw token, before
      lower-casing and stripping. */
  function KeywordsOf(ws: seq<string>): set<string>
  {
    if ws == [] then {}
    else (if |ws[0]| > 2 then {Keyword(ws[0])} else {}) + KeywordsOf(ws[1..])
  }

  /** The job-description keyword set. */
  function JdKeywords(jd: string): set<string>
  {
    KeywordsOf(Words(jd))
  }

  /** The keyword set is the set comprehension over the long tokens. */
  lemma {:induction false} KeywordsOfIs(ws: seq<string>)
    ensures KeywordsOf(ws) == set w | w in ws && |w| > 2 :: Keyword(w)
  {
    if ws != [] {
      KeywordsOfIs(ws[1..]);
      assert forall w :: w in ws <==> w == ws[0] || w in ws[1..];
    }
  }

  /** Every keyword is a clean token: no whitespace, no upper-case letter and
      no punctuation at either end. */
  lemma {:induction false} JdKeywordsAreClean(jd: string)
    ensures forall k :: k in JdKeywords(jd) ==> IsCleanKeyword(k)
  {
    KeywordsOfIs(Words(jd));
    forall w | w in Words(jd) && |w| > 2 ensures IsCleanKeyword(Keyword(w)) {
      var i :| 0 <= i < |Words(jd)| && Words(jd)[i] == w;
      TrimOfCleanToken(w);
    }
  }

  /** Because the length filter looks at the raw token, a token of three or
      more punctuation characters (such as "---") survives and becomes the
      empty keyword. */
  lemma {:induction false} PunctuationTokenIsEmptyKeyword(jd: string, w: string)
    requires w in Words(jd) && |w| > 2
    requires forall i :: 0 <= i < |w| ==> w[i] in JdPunctuation
    ensures [] in JdKeywords(jd)
  {
    forall i | 0 <= i < |w| ensures Lower(w)[i] == w[i] {
      assert !IsUpperChar(w[i]);
    }
    assert Lower(w) == w;
    TrimAll(w, JdPunctuation);
    assert Keyword(w) == [];
    KeywordsOfIs(Words(jd));
  }

  /** The resume skills in lower case, as the matcher compares them. */
  function LowerSkills(skills: set<string>): set<string>
  {
    set s | s in skills :: Lower(s)
  }

  /** The value of a percentage: `100 * hits / total`, or 0 for an empty total. */
  function PercentValue(p: Percentage): real
  {
    if p.total > 0 then 100.0 * (p.hits as real) / (p.total as real) else 0.0
  }

  /** Of `n = m + x` keywords with `m` hits and `x` misses, the percentage
      lies in [0, 100] and is 100 exactly when there are no misses. */
  lemma {:induction false} PercentFacts(m: nat, x: nat, n: nat)
    requires n == m + x
    ensures 0.0 <= PercentValue(Percentage(m, n)) <= 100.0
    ensures n > 0 ==> (PercentValue(Percentage(m, n)) == 100.0 <==> x == 0)
  {
    if n > 0 {
      var score, mr, nr := PercentValue(Percentage(m, n)), m as real, n as real;
      assert score * nr == 100.0 * mr;
      assert 100.0 * mr <= 100.0 * nr;
      if x == 0 {
        assert mr == nr;
        assert (score - 100.0) * nr == 0.0;
      }
      if score == 100.0 {
        assert 100.0 * nr == 100.0 * mr;
      }
    }
  }

  lemma {:induction false} PartitionSizes(ks: set<string>, matched: set<string>, missing: set<string>)
    requires matched !! missing && matched + missing == ks
    ensures |ks| == |matched| + |missing|
  {
  }

  /** `score_resume_against_jd`: the keywords are split into matched and
      missing by exact membership in the lower-cased skills. */
  function ScoreAgainstJd(skills: set<string>, jd: string): (r: JdResult)
    ensures r.matched !! r.missing && r.matched + r.missing == JdKeywords(jd)
    ensures r.score == Percentage(|r.matched|, |r.matched| + |r.missing|)
  {
    var ks := JdKeywords(jd);
    var lowered := LowerSkills(skills);
    var matched := ks * lowered;
    var missing := ks - lowered;
    JdResult(Percentage(|matched|, |ks|), matched, missing, JdSummary)
  }

  /** Matched and missing partition the keyword set, a keyword is matched
      exactly when some skill lower-cases to it, and the summary is fixed. */
  lemma {:induction false} ScoreAgainstJdPartitions(skills: set<string>, jd: string)
    ensures var r := ScoreAgainstJd(skills, jd);
      r.matched !! r.missing && r.matched + r.missing == JdKeywords(jd) &&
      (forall k :: k in JdKeywords(jd) ==> (k in r.matched <==> exists s :: s in skills && Lower(s) == k)) &&
      r.summary == JdSummary
  {
    var r, lowered := ScoreAgainstJd(skills, jd), LowerSkills(skills);
    assert forall k :: k in lowered <==> exists s :: s in skills && Lower(s) == k;
  }

  /** The score is the matched share of the keywords as a percentage: 0 for
      an empty keyword set, otherwise between 0 and 100, and 100 exactly when
      no keyword is missing. */
  lemma {:induction false} JdScoreFacts(skills: set<string>, jd: string)
    ensures var r := ScoreAgainstJd(skills, jd);
      r.score == Percentage(|r.matched|, |JdKeywords(jd)|) &&
      0.0 <= PercentValue(r.score) <= 100.0 &&
      (JdKeywords(jd) == {} ==> PercentValue(r.score) == 0.0) &&
      (JdKeywords(jd) != {} ==> (PercentValue(r.score) == 100.0 <==> r.missing == {}))
  {
    var r, ks := ScoreAgainstJd(skills, jd), JdKeywords(jd);
    var m, x, n := |r.matched|, |r.missing|, |ks|;
    ScoreAgainstJdPartitions(skills, jd);
    PartitionSizes(ks, r.matched, r.missing);
    PercentFacts(m, x, n);
    assert ks == {} <==> n == 0;
    assert r.missing == {} <==> x == 0;
  }
}
