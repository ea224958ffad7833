/** Skill extraction: a case-insensitive, word-bounded search for the words of
    a fixed vocabulary, in the manner of `re.findall` over the alternation
    `\b(?:python|java|...)\b`, with the matches upper-cased into a set. */
module Skills {
  import opened Text
  import opened Options

  /** The vocabulary, in the order of the regex alternation. */
  const SkillWords: seq<string> :=
    ["python", "java", "html", "css", "javascript", "ml", "ai", "pandas", "flask", "react", "sql", "c++", "node", "tailwind"]

  /** Regex `\b` at position `i`: a word character on exactly one side. */
  predicate BoundaryAt(s: string, i: nat)
    requires i <= |s|
  {
    (i > 0 && IsWordChar(s[i - 1])) != (i < |s| && IsWordChar(s[i]))
  }

  /** `\b<w>\b` matches at `i`, ignoring the case of the text. */
  predicate WordAt(s: string, i: nat, w: string)
  {
    i + |w| <= |s| && Lower(s[i..i + |w|]) == w && BoundaryAt(s, i) && BoundaryAt(s, i + |w|)
  }

  /** A matcher says whether the word `w` matches at position `i` of a text. */
  type Matcher = (nat, string) -> bool

  /** The matcher of `\b<w>\b` on the text `s`, ignoring case. */
  function WordMatcher(s: string): Matcher
  {
    (i: nat, w: string) => WordAt(s, i, w)
  }

  /** The first alternative, from index `k` on, that matches at `i`. */
  function AlternativeAt(at: Matcher, i: nat, ws: seq<string>, k: nat): (r: Option<nat>)
    requires k <= |ws|
    ensures r.Some? ==> k <= r.value < |ws| && at(i, ws[r.value])
    decreases |ws| - k
  {
    if k == |ws| then None
    else if at(i, ws[k]) then Some(k)
    else AlternativeAt(at, i, ws, k + 1)
  }

  /** The alternation is ordered: when the alternative at index `j` matches,
      one at `j` or before it is taken, so nothing is taken only when no
      alternative matches. */
  lemma {:induction false} AlternativeAtIsFirst(at: Matcher, i: nat, ws: seq<string>, k: nat, j: nat)
    requires k <= j < |ws|
    ensures at(i, ws[j]) ==> AlternativeAt(at, i, ws, k).Some? && AlternativeAt(at, i, ws, k).value <= j
    decreases |ws| - k
  {
    if k < j && !at(i, ws[k]) {
      AlternativeAtIsFirst(at, i, ws, k + 1, j);
    }
  }

  predicate NonEmptyWords(ws: seq<string>)
  {
    forall k :: 0 <= k < |ws| ==> |ws[k]| > 0
  }

  /** Every match lies inside a text of length `n`. */
  ghost predicate FitsIn(at: Matcher, n: nat, ws: seq<string>)
  {
    forall i: nat, k :: 0 <= k < |ws| && at(i, ws[k]) ==> i + |ws[k]| <= n
  }

  /** Some word-bounded occurrence of `w` starts at or after `i`. */
  predicate OccursFrom(s: string, i: nat, w: string)
  {
    exists j :: i <= j <= |s| && WordAt(s, j, w)
  }

  /** `re.findall` from position `i`: at each position the first matching
      alternative is taken and the scan resumes after it; otherwise the scan
      moves one character on. */
  function FindWords(s: string, i: nat, ws: seq<string>, at: Matcher): seq<string>
    requires i <= |s| && NonEmptyWords(ws) && FitsIn(at, |s|, ws)
    decreases |s| - i
  {
    if i == |s| then []
    else
      match AlternativeAt(at, i, ws, 0)
      case Some(k) => [s[i..i + |ws[k]|]] + FindWords(s, i + |ws[k]|, ws, at)
      case None => FindWords(s, i + 1, ws, at)
  }

  /** `m` is the text of a match of some alternative at or after `i`. */
  ghost predicate IsMatchFrom(s: string, i: nat, ws: seq<string>, at: Matcher, m: string)
  {
    exists j: nat, k :: i <= j && 0 <= k < |ws| && j + |ws[k]| <= |s| && at(j, ws[k]) && m == s[j..j + |ws[k]|]
  }

  /** Everything the scan reports is the text of a match. */
  lemma {:induction false} FindWordsSound(s: string, i: nat, ws: seq<string>, at: Matcher)
    requires i <= |s| && NonEmptyWords(ws) && FitsIn(at, |s|, ws)
    ensures forall n :: 0 <= n < |FindWords(s, i, ws, at)| ==> IsMatchFrom(s, i, ws, at, FindWords(s, i, ws, at)[n])
    decreases |s| - i
  {
    if i < |s| {
      match AlternativeAt(at, i, ws, 0)
      case Some(k) =>
        var e := i + |ws[k]|;
        FindWordsSound(s, e, ws, at);
        assert FindWords(s, i, ws, at) == [s[i..e]] + FindWords(s, e, ws, at);
        assert IsMatchFrom(s, i, ws, at, s[i..e]);
        assert forall m :: IsMatchFrom(s, e, ws, at, m) ==> IsMatchFrom(s, i, ws, at, m);
      case None =>
        FindWordsSound(s, i + 1, ws, at);
        assert FindWords(s, i, ws, at) == FindWords(s, i + 1, ws, at);
        assert forall m :: IsMatchFrom(s, i + 1, ws, at, m) ==> IsMatchFrom(s, i, ws, at, m);
    }
  }

  /** Two matches are either the same match or do not overlap. */
  ghost predicate NoOverlap(at: Matcher, ws: seq<string>)
  {
    forall p: nat, a, j: nat, b :: 0 <= a < |ws| && 0 <= b < |ws| && p <= j && at(p, ws[a]) && at(j, ws[b]) ==>
      (p == j && ws[a] == ws[b]) || p + |ws[a]| <= j
  }

  /** When matches cannot overlap, every match at or after the scan position
      is reported; `n` is its place in the report. */
  lemma {:induction false} FindWordsComplete(s: string, p: nat, ws: seq<string>, at: Matcher, j: nat, k: nat) returns (n: nat)
    requires p <= |s| && NonEmptyWords(ws) && FitsIn(at, |s|, ws) && NoOverlap(at, ws)
    requires p <= j && k < |ws| && at(j, ws[k])
    ensures j + |ws[k]| <= |s| && n < |FindWords(s, p, ws, at)| && FindWords(s, p, ws, at)[n] == s[j..j + |ws[k]|]
    decreases |s| - p
  {
    AlternativeAtIsFirst(at, p, ws, 0, k);
    match AlternativeAt(at, p, ws, 0)
    case None =>
      n := FindWordsComplete(s, p + 1, ws, at, j, k);
      assert FindWords(s, p, ws, at) == FindWords(s, p + 1, ws, at);
    case Some(a) =>
      var e := p + |ws[a]|;
      assert FindWords(s, p, ws, at) == [s[p..e]] + FindWords(s, e, ws, at);
      if p == j {
        n := 0;
      } else {
        var n' := FindWordsComplete(s, e, ws, at, j, k);
        n := n' + 1;
      }
  }

  /** Word matches lie inside the text. */
  lemma {:induction false} WordMatcherFits(s: string, ws: seq<string>)
    ensures FitsIn(WordMatcher(s), |s|, ws)
  {
  }

  /** The text of a word match is the word up to case, and the word occurs. */
  lemma {:induction false} WordMatchText(s: string, j: nat, w: string)
    requires WordAt(s, j, w)
    ensures Upper(s[j..j + |w|]) == Upper(w) && OccursFrom(s, 0, w)
  {
    UpperOfLower(s[j..j + |w|]);
  }

  /** A word match found from position 0 is, up to case, one of the words,
      and that word occurs in the text. */
  ghost predicate MatchesVocabulary(s: string, ws: seq<string>, m: string)
  {
    exists k :: 0 <= k < |ws| && Upper(m) == Upper(ws[k]) && OccursFrom(s, 0, ws[k])
  }

  lemma {:induction false} MatchOccurs(s: string, ws: seq<string>, m: string)
    requires IsMatchFrom(s, 0, ws, WordMatcher(s), m)
    ensures MatchesVocabulary(s, ws, m)
  {
    var j: nat, k :| 0 <= k < |ws| && j + |ws[k]| <= |s| && WordMatcher(s)(j, ws[k]) && m == s[j..j + |ws[k]|];
    WordMatchText(s, j, ws[k]);
  }

  /** Every match the scan reports is, up to case, one of the words, and
      that word occurs in the text. */
  lemma {:induction false} WordMatchesOccur(s: string, ws: seq<string>)
    requires NonEmptyWords(ws)
    ensures FitsIn(WordMatcher(s), |s|, ws)
    ensures forall n :: 0 <= n < |FindWords(s, 0, ws, WordMatcher(s))| ==>
      MatchesVocabulary(s, ws, FindWords(s, 0, ws, WordMatcher(s))[n])
  {
    WordMatcherFits(s, ws);
    FindWordsSound(s, 0, ws, WordMatcher(s));
    var ms := FindWords(s, 0, ws, WordMatcher(s));
    forall n | 0 <= n < |ms|
      ensures MatchesVocabulary(s, ws, ms[n])
    {
      MatchOccurs(s, ws, ms[n]);
    }
  }

  /** `extract_skills`: the matches, upper-cased, as a set (the source turns
      the set into a list whose order depends on string hashing). Every skill
      is the upper-case form of a vocabulary word that occurs in the text. */
  function ExtractSkills(s: string): (skills: set<string>)
    ensures forall sk :: sk in skills ==>
      exists k :: 0 <= k < |SkillWords| && sk == Upper(SkillWords[k]) && OccursFrom(s, 0, SkillWords[k])
  {
    VocabularyIsWellFormed();
    WordMatchesOccur(s, SkillWords);
    var ms := FindWords(s, 0, SkillWords, WordMatcher(s));
    UpperAllMembers(ms);
    UpperAll(ms)
  }

  /** The upper-case forms of a list of matches, as a set. */
  function UpperAll(ms: seq<string>): set<string>
  {
    if ms == [] then {} else {Upper(ms[0])} + UpperAll(ms[1..])
  }

  lemma {:induction false} UpperAllMembers(ms: seq<string>)
    ensures forall sk :: sk in UpperAll(ms) ==> exists n :: 0 <= n < |ms| && sk == Upper(ms[n])
    ensures forall n :: 0 <= n < |ms| ==> Upper(ms[n]) in UpperAll(ms)
  {
    if ms != [] {
      UpperAllMembers(ms[1..]);
      forall sk | sk in UpperAll(ms)
        ensures exists n :: 0 <= n < |ms| && sk == Upper(ms[n])
      {
        if sk != Upper(ms[0]) {
          var n :| 0 <= n < |ms[1..]| && sk == Upper(ms[1..][n]);
          assert sk == Upper(ms[n + 1]);
        }
      }
      forall n | 0 <= n < |ms|
        ensures Upper(ms[n]) in UpperAll(ms)
      {
        if n > 0 {
          assert ms[n] == ms[1..][n - 1];
        }
      }
    }
  }

  // ---------------------------------------------------------------------
  // Completeness: matches of vocabulary words cannot overlap, so the scan
  // finds every word-bounded occurrence.

  predicate AllLowerLetters(w: string)
  {
    forall n :: 0 <= n < |w| ==> IsLowerChar(w[n])
  }

  /** The shape of the vocabulary words: at least two characters, starting
      with a letter, and all letters except for "c++". */
  predicate IsVocabularyWord(w: string)
  {
    |w| >= 2 && IsLowerChar(w[0]) && (AllLowerLetters(w) || w == "c++")
  }

  predicate WellFormedVocabulary(ws: seq<string>)
  {
    forall k :: 0 <= k < |ws| ==> IsVocabularyWord(ws[k])
  }

  lemma {:induction false} VocabularyIsWellFormed()
    ensures WellFormedVocabulary(SkillWords) && NonEmptyWords(SkillWords)
  {
    forall k | 0 <= k < |SkillWords| ensures IsVocabularyWord(SkillWords[k]) {
      var w := SkillWords[k];
      if w != "c++" {
        assert AllLowerLetters(w);
      }
    }
  }

  /** Where `w` matches at `j`, each character of the text lowers to the
      word's character, and is a word character exactly when that one is. */
  lemma {:induction false} MatchedChar(s: string, j: nat, w: string, n: nat)
    requires j + |w| <= |s| && Lower(s[j..j + |w|]) == w && n < |w|
    ensures ToLower(s[j + n]) == w[n] && IsWordChar(s[j + n]) == IsWordChar(w[n])
  {
    assert Lower(s[j..j + |w|])[n] == ToLower(s[j..j + |w|][n]);
  }

  /** No vocabulary word matches strictly inside the match of another. */
  lemma {:induction false} NotWordInside(s: string, p: nat, u: string, j: nat, w: string)
    requires WordAt(s, p, u) && IsVocabularyWord(u) && IsVocabularyWord(w)
    ensures p < j < p + |u| ==> !WordAt(s, j, w)
  {
    if p < j < p + |u| {
      var n := j - p;
      MatchedChar(s, p, u, n - 1);
      MatchedChar(s, p, u, n);
      if AllLowerLetters(u) {
        assert !BoundaryAt(s, j);
      } else if n == 2 {
        assert !BoundaryAt(s, j);
      } else if j + |w| <= |s| {
        MatchedChar(s, j, Lower(s[j..j + |w|]), 0);
        assert Lower(s[j..j + |w|])[0] == '+' != w[0];
      }
    }
  }

  /** A vocabulary word matched at `j` leaves no room for a shorter one there:
      the shorter word would end inside a run of letters, or (against "c++")
      at a '+'. */
  lemma {:induction false} ShorterWordNotAt(s: string, j: nat, u: string, w: string)
    requires WordAt(s, j, u) && IsVocabularyWord(u) && IsVocabularyWord(w) && |w| < |u|
    ensures !WordAt(s, j, w)
  {
    var k := |w|;
    MatchedChar(s, j, u, k - 1);
    MatchedChar(s, j, u, k);
    if !AllLowerLetters(u) && j + |w| <= |s| {
      var lw := Lower(s[j..j + |w|]);
      MatchedChar(s, j, lw, 1);
      assert lw[1] == '+' != w[1];
    }
  }

  /** Nor for a longer one: where the matched word ends, the text has a
      non-letter or a word boundary the longer word does not have. */
  lemma {:induction false} LongerWordNotAt(s: string, j: nat, u: string, w: string)
    requires WordAt(s, j, u) && IsVocabularyWord(u) && IsVocabularyWord(w) && |w| > |u|
    ensures !WordAt(s, j, w)
  {
    if j + |w| <= |s| {
      var lw := Lower(s[j..j + |w|]);
      var k := |u|;
      if AllLowerLetters(w) {
        var t := if !IsWordChar(s[j + k - 1]) then k - 1 else k;
        MatchedChar(s, j, lw, t);
        assert lw[t] != w[t];
      } else {
        MatchedChar(s, j, u, 1);
        MatchedChar(s, j, lw, 1);
        assert lw[1] != w[1];
      }
    }
  }

  /** Two different vocabulary words never both match at one position. */
  lemma {:induction false} OneWordPerPosition(s: string, j: nat, u: string, w: string)
    requires WordAt(s, j, u) && IsVocabularyWord(u) && IsVocabularyWord(w) && u != w
    ensures !WordAt(s, j, w)
  {
    if |w| < |u| {
      ShorterWordNotAt(s, j, u, w);
    } else if |w| > |u| {
      LongerWordNotAt(s, j, u, w);
    }
  }

  /** A match at `p` and an occurrence at `j >= p` are either the same match
      or the occurrence starts after the match ends. */
  lemma {:induction false} NextMatchBound(s: string, p: nat, u: string, j: nat, w: string)
    requires WordAt(s, p, u) && WordAt(s, j, w) && IsVocabularyWord(u) && IsVocabularyWord(w) && p <= j
    ensures (p == j && u == w) || p + |u| <= j
  {
    if u != w {
      OneWordPerPosition(s, p, u, w);
    }
    NotWordInside(s, p, u, j, w);
  }

  /** Vocabulary matches on a text never overlap. */
  lemma {:induction false} WordMatcherNoOverlap(s: string)
    ensures NoOverlap(WordMatcher(s), SkillWords)
  {
    VocabularyIsWellFormed();
    var at := WordMatcher(s);
    forall p: nat, a, j: nat, b | 0 <= a < |SkillWords| && 0 <= b < |SkillWords| && p <= j && at(p, SkillWords[a]) && at(j, SkillWords[b])
      ensures (p == j && SkillWords[a] == SkillWords[b]) || p + |SkillWords[a]| <= j
    {
      NextMatchBound(s, p, SkillWords[a], j, SkillWords[b]);
    }
  }

  lemma {:induction false} VocabularyWordNotUpper(w: string)
    requires IsVocabularyWord(w)
    ensures forall n :: 0 <= n < |w| ==> !IsUpperChar(w[n])
  {
    if !AllLowerLetters(w) {
      assert w == "c++";
    }
  }

  /** Upper-casing is injective on strings without upper-case letters. */
  lemma {:induction false} UpperInjective(a: string, b: string)
    requires forall n :: 0 <= n < |a| ==> !IsUpperChar(a[n])
    requires forall n :: 0 <= n < |b| ==> !IsUpperChar(b[n])
    ensures Upper(a) == Upper(b) ==> a == b
  {
    if |a| == |b| && a != b {
      var n :| 0 <= n < |a| && a[n] != b[n];
      assert Upper(a)[n] != Upper(b)[n];
    }
  }

  /** A vocabulary word's upper-case form is among the skills exactly when
      the word occurs in the text, in any case, between word boundaries. */
  lemma {:induction false} ExtractSkillsExactly(s: string, k: nat)
    requires k < |SkillWords|
    ensures Upper(SkillWords[k]) in ExtractSkills(s) <==> OccursFrom(s, 0, SkillWords[k])
  {
    VocabularyIsWellFormed();
    var w := SkillWords[k];
    if OccursFrom(s, 0, w) {
      var j :| 0 <= j <= |s| && WordAt(s, j, w);
      var at := WordMatcher(s);
      VocabularyIsWellFormed();
      WordMatcherFits(s, SkillWords);
      WordMatcherNoOverlap(s);
      assert at(j, SkillWords[k]);
      var n := FindWordsComplete(s, 0, SkillWords, at, j, k);
      var m := FindWords(s, 0, SkillWords, at)[n];
      assert Lower(m) == w;
      UpperOfLower(m);
      UpperAllMembers(FindWords(s, 0, SkillWords, at));
    }
    if Upper(w) in ExtractSkills(s) {
      var k' :| 0 <= k' < |SkillWords| && Upper(w) == Upper(SkillWords[k']) && OccursFrom(s, 0, SkillWords[k']);
      var w' := SkillWords[k'];
      VocabularyWordNotUpper(w);
      VocabularyWordNotUpper(w');
      UpperInjective(w, w');
    }
  }

  /** "c++" is only found when a word character follows it: the closing `\b`
      needs one after the non-word '+'. So "C++" at the end of the text or
      before a space, comma or full stop is never extracted. */
  lemma {:induction false} CppNeedsWordCharAfter(s: string, j: nat)
    requires WordAt(s, j, "c++")
    ensures j + 3 < |s| && IsWordChar(s[j + 3])
  {
    MatchedChar(s, j, "c++", 2);
  }
}
