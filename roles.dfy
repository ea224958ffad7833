/** Role prediction: every role of a keyword taxonomy is scored by how many
    of its keywords occur in the lower-cased resume text, and the roles are
    ranked by a stable sort on that score, highest first. */
module Roles {
  import opened Text

  /** Role name paired with its keyword phrases, in declaration order. */
  type Taxonomy = seq<(string, seq<string>)>

  /** A role name paired with its keyword-hit count. */
  type RoleScore = (string, nat)

  const Uncategorized: string := "Uncategorized"

  /** The built-in taxonomy, in the order the roles are declared. */
  const RoleKeywords: Taxonomy := [
    ("AI Engineer", ["machine learning", "deep learning", "tensorflow", "pytorch", "nlp", "ai"]),
    ("Data Scientist", ["data analysis", "pandas", "numpy", "statistics", "data visualization", "scikit-learn"]),
    ("Frontend Developer", ["html", "css", "javascript", "react", "vue", "tailwind"]),
    ("Backend Developer", ["django", "flask", "node", "express", "mongodb", "sql"]),
    ("Full Stack Developer", ["mern", "frontend", "backend", "full stack", "api"]),
    ("DevOps Engineer", ["docker", "kubernetes", "jenkins", "ci/cd", "aws"]),
    ("Cybersecurity Analyst", ["penetration", "network security", "firewall", "malware"])
  ]

  /** The taxonomy is a dictionary: no role name is declared twice. */
  predicate DistinctNames(tax: Taxonomy)
  {
    forall i, j :: 0 <= i < j < |tax| ==> tax[i].0 != tax[j].0
  }

  /** The names of a taxonomy or of a ranking, in order. */
  function Names<K>(ps: seq<(string, K)>): (ns: seq<string>)
    ensures |ns| == |ps|
  {
    seq(|ps|, i requires 0 <= i < |ps| => ps[i].0)
  }

  /** Number of keywords (counted with repetition) that occur as substrings
      of `lowered`; a keyword may hit inside a longer word ("ai" in "email"). */
  function Hits(kws: seq<string>, lowered: string): (n: nat)
    ensures n <= |kws|
  {
    if kws == [] then 0
    else Hits(kws[..|kws| - 1], lowered) + (if Contains(lowered, kws[|kws| - 1]) then 1 else 0)
  }

  /** Positions among the first `n` keywords whose keyword occurs in `lowered`. */
  function HitPositions(kws: seq<string>, lowered: string, n: nat): set<nat>
    requires n <= |kws|
  {
    set i: nat | i < n && Contains(lowered, kws[i])
  }

  lemma {:induction false} HitsPrefix(kws: seq<string>, lowered: string, n: nat)
    requires n <= |kws|
    ensures Hits(kws[..n], lowered) == |HitPositions(kws, lowered, n)|
  {
    if n == 0 {
      assert HitPositions(kws, lowered, 0) == {};
    } else {
      HitsPrefix(kws, lowered, n - 1);
      var p := kws[..n];
      assert p[..n - 1] == kws[..n - 1] && p[n - 1] == kws[n - 1];
      assert Hits(p, lowered) == Hits(kws[..n - 1], lowered) + (if Contains(lowered, kws[n - 1]) then 1 else 0);
      HitPositionsStep(kws, lowered, n);
    }
  }

  lemma {:induction false} HitPositionsStep(kws: seq<string>, lowered: string, n: nat)
    requires 0 < n <= |kws|
    ensures |HitPositions(kws, lowered, n)| ==
      |HitPositions(kws, lowered, n - 1)| + (if Contains(lowered, kws[n - 1]) then 1 else 0)
  {
    var before := HitPositions(kws, lowered, n - 1);
    if Contains(lowered, kws[n - 1]) {
      assert HitPositions(kws, lowered, n) == before + {n - 1};
    } else {
      assert HitPositions(kws, lowered, n) == before;
    }
  }

  /** A role's score is exactly the number of its keywords found in the text. */
  lemma {:induction false} HitsCountsKeywords(kws: seq<string>, lowered: string)
    ensures Hits(kws, lowered) == |set i: nat | i < |kws| && Contains(lowered, kws[i])|
  {
    HitsPrefix(kws, lowered, |kws|);
    assert kws[..|kws|] == kws;
  }

  /** The scores in taxonomy order, before sorting. */
  function Scores(tax: Taxonomy, text: string): (sc: seq<RoleScore>)
    ensures |sc| == |tax| && Names(sc) == Names(tax)
  {
    seq(|tax|, i requires 0 <= i < |tax| => (tax[i].0, Hits(tax[i].1, Lower(text))))
  }

  predicate SortedByCount(rs: seq<RoleScore>)
  {
    forall i, j :: 0 <= i < j < |rs| ==> rs[i].1 >= rs[j].1
  }

  /** Where `x` goes in `t`: after every entry that scores higher, before the
      first one that scores the same or lower. */
  function InsertPos(x: RoleScore, t: seq<RoleScore>): (k: nat)
    ensures k <= |t|
    ensures forall j :: 0 <= j < k ==> t[j].1 > x.1
    ensures k < |t| ==> t[k].1 <= x.1
  {
    if t == [] || t[0].1 <= x.1 then 0 else InsertPos(x, t[1..]) + 1
  }

  function Insert(x: RoleScore, t: seq<RoleScore>): seq<RoleScore>
  {
    var k := InsertPos(x, t);
    t[..k] + [x] + t[k..]
  }

  lemma {:induction false} InsertSorted(x: RoleScore, t: seq<RoleScore>)
    requires SortedByCount(t)
    ensures SortedByCount(Insert(x, t))
    ensures multiset(Insert(x, t)) == multiset(t) + multiset{x}
  {
    InsertKeepsSorted(x, t);
    InsertAddsOne(x, t);
  }

  lemma {:induction false} InsertKeepsSorted(x: RoleScore, t: seq<RoleScore>)
    requires SortedByCount(t)
    ensures SortedByCount(Insert(x, t))
  {
    var k := InsertPos(x, t);
    var r := Insert(x, t);
    assert |r| == |t| + 1;
    forall i, j | 0 <= i < j < |r|
      ensures r[i].1 >= r[j].1
    {
      var vi := if i < k then t[i] else if i == k then x else t[i - 1];
      var vj := if j < k then t[j] else if j == k then x else t[j - 1];
      assert r[i] == vi && r[j] == vj;
      if k < j {
        assert t[j - 1].1 <= t[k].1 <= x.1;
      }
    }
  }

  lemma {:induction false} InsertAddsOne(x: RoleScore, t: seq<RoleScore>)
    ensures multiset(Insert(x, t)) == multiset(t) + multiset{x}
  {
    var k := InsertPos(x, t);
    assert t == t[..k] + t[k..];
    assert multiset(t) == multiset(t[..k]) + multiset(t[k..]);
  }

  /** Python's `sorted(..., key=count, reverse=True)`: an insertion sort that
      puts each entry before the equal-scoring entries that follow it in the
      input, which is what makes it stable. */
  function SortByCount(s: seq<RoleScore>): (r: seq<RoleScore>)
    ensures SortedByCount(r)
    ensures multiset(r) == multiset(s)
    ensures |r| == |s|
  {
    if s == [] then []
    else
      var t := SortByCount(s[1..]);
      InsertSorted(s[0], t);
      assert s == [s[0]] + s[1..];
      Insert(s[0], t)
  }

  /** Index of the first occurrence of `x` in `s`. */
  function IndexOf<T(==)>(s: seq<T>, x: T): (i: nat)
    requires x in s
    ensures i < |s| && s[i] == x
    ensures forall j :: 0 <= j < i ==> s[j] != x
  {
    if s[0] == x then 0 else 1 + IndexOf(s[1..], x)
  }

  lemma {:induction false} IndexOfIs<T>(s: seq<T>, x: T, i: nat)
    requires i < |s| && s[i] == x
    requires forall j :: 0 <= j < i ==> s[j] != x
    ensures IndexOf(s, x) == i
  {
  }

  /** Inserting `h` shifts every other entry found at or after the insertion
      point by one place. */
  lemma {:induction false} IndexAfterInsert(h: RoleScore, t: seq<RoleScore>, e: RoleScore)
    requires e in t && e != h
    ensures e in Insert(h, t)
    ensures IndexOf(Insert(h, t), e) ==
      if IndexOf(t, e) < InsertPos(h, t) then IndexOf(t, e) else IndexOf(t, e) + 1
  {
    var k, i, r := InsertPos(h, t), IndexOf(t, e), Insert(h, t);
    if i < k {
      assert r[i] == e;
      IndexOfIs(r, e, i);
    } else {
      assert r[i + 1] == e;
      assert forall j :: 0 <= j < i + 1 ==> r[j] != e by {
        forall j | 0 <= j < i + 1 ensures r[j] != e {
          if j < k { assert r[j] == t[j]; }
          else if j > k { assert r[j] == t[j - 1]; }
        }
      }
      IndexOfIs(r, e, i + 1);
    }
  }

  /** The inserted entry lands before every entry of `t` with its score. */
  lemma {:induction false} InsertBeforeEqual(h: RoleScore, t: seq<RoleScore>, y: RoleScore)
    requires y in t && y != h && y.1 == h.1
    ensures h in Insert(h, t) && y in Insert(h, t)
    ensures IndexOf(Insert(h, t), h) < IndexOf(Insert(h, t), y)
  {
    var k, r := InsertPos(h, t), Insert(h, t);
    assert r[k] == h;
    assert forall j :: 0 <= j < k ==> r[j] == t[j];
    IndexOfIs(r, h, k);
    IndexAfterInsert(h, t, y);
    assert t[IndexOf(t, y)].1 == h.1;
  }

  /** Inserting an entry keeps the order of two other entries. */
  lemma {:induction false} InsertKeepsOrder(h: RoleScore, t: seq<RoleScore>, x: RoleScore, y: RoleScore)
    requires x in t && y in t && x != h && y != h
    requires IndexOf(t, x) < IndexOf(t, y)
    ensures x in Insert(h, t) && y in Insert(h, t)
    ensures IndexOf(Insert(h, t), x) < IndexOf(Insert(h, t), y)
  {
    IndexAfterInsert(h, t, x);
    IndexAfterInsert(h, t, y);
  }

  /** Stability: two different entries with the same score come out of the
      sort in the order of their first occurrences in the input. */
  lemma {:induction false} SortIsStable(s: seq<RoleScore>, x: RoleScore, y: RoleScore)
    requires x in s && y in s && x != y && x.1 == y.1
    requires IndexOf(s, x) < IndexOf(s, y)
    ensures x in SortByCount(s) && y in SortByCount(s)
    ensures IndexOf(SortByCount(s), x) < IndexOf(SortByCount(s), y)
  {
    var h, t := s[0], SortByCount(s[1..]);
    assert SortByCount(s) == Insert(h, t);
    assert y != h;
    assert y in s[1..] by { assert s[IndexOf(s, y)] == y; }
    assert y in t by { assert y in multiset(s[1..]); }
    if x == h {
      InsertBeforeEqual(h, t, y);
    } else {
      assert x in s[1..] by { assert s[IndexOf(s, x)] == x; }
      assert IndexOf(s, x) == IndexOf(s[1..], x) + 1;
      assert IndexOf(s, y) == IndexOf(s[1..], y) + 1;
      SortIsStable(s[1..], x, y);
      InsertKeepsOrder(h, t, x, y);
    }
  }

  lemma {:induction false} NamesAppend(a: seq<RoleScore>, b: seq<RoleScore>)
    ensures Names(a + b) == Names(a) + Names(b)
  {
  }

  lemma {:induction false} InsertNames(h: RoleScore, t: seq<RoleScore>)
    ensures multiset(Names(Insert(h, t))) == multiset(Names(t)) + multiset{h.0}
  {
    var k := InsertPos(h, t);
    var a, b := t[..k], t[k..];
    NamesAppend(a + [h], b);
    NamesAppend(a, [h]);
    NamesAppend(a, b);
    assert t == a + b;
    assert Names([h]) == [h.0];
  }

  /** Sorting neither drops nor duplicates a role name. */
  lemma {:induction false} SortKeepsNames(s: seq<RoleScore>)
    ensures multiset(Names(SortByCount(s))) == multiset(Names(s))
  {
    if s != [] {
      SortKeepsNames(s[1..]);
      InsertNames(s[0], SortByCount(s[1..]));
      NamesAppend([s[0]], s[1..]);
      assert s == [s[0]] + s[1..];
      assert Names([s[0]]) == [s[0].0];
    }
  }

  /** `predict_all_roles`: every taxonomy role with its hit count, highest
      count first, equal counts in declaration order. */
  function PredictAllRoles(tax: Taxonomy, text: string): (r: seq<RoleScore>)
    ensures |r| == |tax| && SortedByCount(r)
    ensures multiset(r) == multiset(Scores(tax, text))
  {
    SortByCount(Scores(tax, text))
  }

  /** `e` is the entry of role `i` of the taxonomy: its name, with the
      number of its keywords found in the text. */
  predicate ScoreOfRole(tax: Taxonomy, text: string, i: nat, e: RoleScore)
  {
    i < |tax| && e.0 == tax[i].0 && e.1 == Hits(tax[i].1, Lower(text))
  }

  /** The ranking is a permutation of the taxonomy: each role appears once
      per declaration, with the number of its keywords found in the text
      (which `Hits` bounds by its number of keywords). */
  lemma {:induction false} PredictAllRolesAreTaxonomy(tax: Taxonomy, text: string)
    ensures multiset(Names(PredictAllRoles(tax, text))) == multiset(Names(tax))
    ensures forall e :: e in PredictAllRoles(tax, text) ==> exists i: nat :: ScoreOfRole(tax, text, i, e)
  {
    var sc := Scores(tax, text);
    SortKeepsNames(sc);
    forall e | e in PredictAllRoles(tax, text)
      ensures exists i: nat :: ScoreOfRole(tax, text, i, e)
    {
      assert e in multiset(sc);
      var i := IndexOf(sc, e);
      assert ScoreOfRole(tax, text, i, e);
    }
  }

  /** With distinct role names the scores are distinct entries, so their
      positions in the taxonomy are their first occurrences. */
  lemma {:induction false} ScoreIndex(tax: Taxonomy, text: string, i: nat)
    requires DistinctNames(tax) && i < |tax|
    ensures IndexOf(Scores(tax, text), Scores(tax, text)[i]) == i
  {
    var sc := Scores(tax, text);
    forall j | 0 <= j < i ensures sc[j] != sc[i] {
      assert sc[j].0 == tax[j].0 && sc[i].0 == tax[i].0;
    }
    IndexOfIs(sc, sc[i], i);
  }

  /** Ties keep declaration order: of two roles with the same count, the one
      declared first is ranked first. */
  lemma {:induction false} PredictAllRolesStable(tax: Taxonomy, text: string, i: nat, j: nat)
    requires DistinctNames(tax) && i < j < |tax|
    requires Scores(tax, text)[i].1 == Scores(tax, text)[j].1
    ensures var r, sc := PredictAllRoles(tax, text), Scores(tax, text);
      sc[i] in r && sc[j] in r && IndexOf(r, sc[i]) < IndexOf(r, sc[j])
  {
    var sc := Scores(tax, text);
    ScoreIndex(tax, text, i);
    ScoreIndex(tax, text, j);
    assert sc[i].0 == tax[i].0 != tax[j].0 == sc[j].0;
    SortIsStable(sc, sc[i], sc[j]);
  }

  /** `best_role`: the top-ranked role, unless there is none or it scored 0. */
  function BestRole(scores: seq<RoleScore>): (role: string)
    ensures role != Uncategorized ==> |scores| > 0 && scores[0].1 > 0 && role == scores[0].0
    ensures SortedByCount(scores) && (exists i :: 0 <= i < |scores| && scores[i].1 > 0) ==> role == scores[0].0
  {
    if |scores| > 0 && scores[0].1 > 0 then scores[0].0 else Uncategorized
  }

  /** No role scores higher than the first entry of the ranking. */
  lemma {:induction false} RankingTopIsMax(tax: Taxonomy, text: string)
    requires |tax| > 0
    ensures forall i :: 0 <= i < |tax| ==> Scores(tax, text)[i].1 <= PredictAllRoles(tax, text)[0].1
  {
    var r, sc := PredictAllRoles(tax, text), Scores(tax, text);
    forall i | 0 <= i < |tax| ensures sc[i].1 <= r[0].1 {
      assert sc[i] in multiset(r);
      var j := IndexOf(r, sc[i]);
      assert r[j] == sc[i];
    }
  }

  /** On a ranking, the best role is "Uncategorized" exactly when no role has
      a hit (given no role carries that name); otherwise it is the first
      ranked role, and no role scores higher. */
  lemma {:induction false} BestRoleOfRanking(tax: Taxonomy, text: string)
    requires Uncategorized !in Names(tax)
    ensures var r := PredictAllRoles(tax, text);
      (BestRole(r) == Uncategorized <==> forall i :: 0 <= i < |tax| ==> Scores(tax, text)[i].1 == 0) &&
      (BestRole(r) != Uncategorized ==>
        BestRole(r) == r[0].0 && forall i :: 0 <= i < |tax| ==> Scores(tax, text)[i].1 <= r[0].1)
  {
    var r, sc := PredictAllRoles(tax, text), Scores(tax, text);
    SortKeepsNames(sc);
    if |r| > 0 {
      assert r[0].0 in multiset(Names(r)) by { assert Names(r)[0] == r[0].0; }
      assert r[0].0 in Names(tax);
      RankingTopIsMax(tax, text);
      if r[0].1 == 0 {
        assert BestRole(r) == Uncategorized;
      } else {
        assert r[0] in multiset(sc);
        var j := IndexOf(sc, r[0]);
        assert sc[j].1 != 0;
      }
    }
  }

  /** The built-in taxonomy declares each role once and none is called
      "Uncategorized". */
  lemma {:induction false} RoleKeywordsWellFormed()
    ensures DistinctNames(RoleKeywords) && |RoleKeywords| == 7
    ensures Uncategorized !in Names(RoleKeywords)
  {
    var ns := Names(RoleKeywords);
    assert ns == ["AI Engineer", "Data Scientist", "Frontend Developer", "Backend Developer",
                  "Full Stack Developer", "DevOps Engineer", "Cybersecurity Analyst"];
  }
}
