/** Field extractors: the name line scan and the leftmost-match searches for
    an e-mail address, an Indian mobile number and a profile link. Each
    search is a hand-written matcher for one regular expression together with
    the search that tries it at every position from the left, as `re.search`
    does. */
module Extractors {
  import opened Text
  import opened Options

  /** Sentinel for a field that was not found. */
  const NotFound: string := "Not found"

  /** `re.search`: the first position at or after `i` (up to and including
      `|s|`) at which the matcher `m` succeeds. */
  function FirstMatch(s: string, i: nat, m: (string, nat) -> Option<nat>): (r: Option<nat>)
    requires i <= |s| + 1
    ensures r.Some? ==> i <= r.value <= |s| && m(s, r.value).Some?
    ensures r.Some? ==> forall j :: i <= j < r.value ==> m(s, j).None?
    ensures r.None? ==> forall j :: i <= j <= |s| ==> m(s, j).None?
    decreases |s| + 1 - i
  {
    if i > |s| then None
    else if m(s, i).Some? then Some(i)
    else FirstMatch(s, i + 1, m)
  }

  /** `r` is the text of the leftmost match of `m` in `s`, and that match
      starts at `i`: `m` succeeds at `i` with `r`, and fails everywhere
      before. */
  predicate LeftmostMatchAt(s: string, m: (string, nat) -> Option<nat>, i: nat, r: string)
  {
    i + |r| <= |s| && m(s, i) == Some(i + |r|) && r == s[i..i + |r|] &&
    forall j :: 0 <= j < i ==> m(s, j).None?
  }

  // ---------------------------------------------------------------------
  // E-mail: [\w.-]+@[\w.-]+

  predicate IsEmailChar(c: char) { IsWordChar(c) || c == '.' || c == '-' }

  predicate AllEmailChars(s: string, i: nat, j: nat)
    requires i <= j <= |s|
  {
    forall k :: i <= k < j ==> IsEmailChar(s[k])
  }

  /** The e-mail pattern matches `s[i..e]` with its '@' at `at`: a non-empty
      local part and a non-empty domain of word characters, dots and hyphens,
      the domain as long as the text allows (the quantifier is greedy). */
  predicate EmailShape(s: string, i: nat, at: nat, e: nat)
  {
    i < at && at + 1 < e <= |s| && s[at] == '@' &&
    AllEmailChars(s, i, at) && AllEmailChars(s, at + 1, e) &&
    (e == |s| || !IsEmailChar(s[e]))
  }

  /** The e-mail matcher at `i`: the end of the match, if any. Backtracking
      cannot help the greedy local part, since '@' is not one of its
      characters, so the local part is the whole run starting at `i`. */
  function EmailAt(s: string, i: nat): (r: Option<nat>)
    ensures r.Some? ==> i < r.value <= |s|
  {
    if i > |s| then None
    else
      var at := RunEnd(s, i, IsEmailChar);
      if at > i && at < |s| && s[at] == '@' then
        var e := RunEnd(s, at + 1, IsEmailChar);
        if e > at + 1 then Some(e) else None
      else None
  }

  /** The matcher agrees with the pattern, in both directions. */
  lemma {:induction false} EmailAtIsShape(s: string, i: nat)
    ensures forall e: nat :: EmailAt(s, i) == Some(e) ==> exists at: nat :: EmailShape(s, i, at, e)
    ensures forall at: nat, e: nat :: EmailShape(s, i, at, e) ==> EmailAt(s, i) == Some(e)
  {
    if EmailAt(s, i).Some? {
      assert EmailShape(s, i, RunEnd(s, i, IsEmailChar), EmailAt(s, i).value);
    }
    forall at: nat, e: nat | EmailShape(s, i, at, e) ensures EmailAt(s, i) == Some(e) {
      RunEndIs(s, i, IsEmailChar, at);
      RunEndIs(s, at + 1, IsEmailChar, e);
    }
  }

  /** `extract_email`: the leftmost match of the e-mail pattern, or
      "Not found" when there is none. */
  function ExtractEmail(s: string): (r: string)
    ensures r == NotFound <==> forall i :: 0 <= i <= |s| ==> EmailAt(s, i).None?
    ensures r != NotFound ==> exists i :: LeftmostMatchAt(s, EmailAt, i, r)
  {
    match FirstMatch(s, 0, EmailAt)
    case None => NotFound
    case Some(i) =>
      var r := s[i..EmailAt(s, i).value];
      assert '@' in r && '@' !in NotFound by {
        var e := EmailAt(s, i).value;
        EmailAtIsShape(s, i);
        var at: nat :| EmailShape(s, i, at, e);
        assert r[at - i] == '@';
      }
      assert LeftmostMatchAt(s, EmailAt, i, r);
      r
  }

  // ---------------------------------------------------------------------
  // Phone: (\+91)?[\s\-]?[789]\d{9}

  predicate IsPhoneSep(c: char) { IsSpace(c) || c == '-' }

  /** Ten digits at `j`, the first of them 7, 8 or 9. */
  predicate MobileAt(s: string, j: nat)
  {
    j + 10 <= |s| && (s[j] == '7' || s[j] == '8' || s[j] == '9') &&
    forall k :: j < k < j + 10 ==> IsDigit(s[k])
  }

  /** The phone matcher at `i`, trying the optional parts in the order the
      regex engine does: with the "+91" prefix before without it, and with a
      separator before without one. */
  function PhoneAt(s: string, i: nat): (r: Option<nat>)
    ensures r.Some? ==> i + 10 <= r.value <= |s| && MobileAt(s, r.value - 10)
    ensures r.Some? ==> PhonePrefix(s[i..r.value - 10])
  {
    if HasPrefixAt(s, i, "+91") && i + 3 < |s| && IsPhoneSep(s[i + 3]) && MobileAt(s, i + 4) then Some(i + 14)
    else if HasPrefixAt(s, i, "+91") && MobileAt(s, i + 3) then Some(i + 13)
    else if i < |s| && IsPhoneSep(s[i]) && MobileAt(s, i + 1) then Some(i + 11)
    else if MobileAt(s, i) then Some(i + 10)
    else None
  }

  /** What may stand before the ten digits of a phone match. */
  predicate PhonePrefix(p: string)
  {
    p == [] || (|p| == 1 && IsPhoneSep(p[0])) || p == "+91" || (|p| == 4 && p[..3] == "+91" && IsPhoneSep(p[3]))
  }

  /** The converse of `PhoneAt`'s contract: wherever an allowed prefix is
      followed by a mobile number, the matcher matches exactly that text.
      The four prefixes exclude each other, so the order in which the regex
      engine tries them never picks a different match. */
  lemma {:induction false} PhoneAtIsShape(s: string, i: nat, p: string)
    requires PhonePrefix(p) && HasPrefixAt(s, i, p) && MobileAt(s, i + |p|)
    ensures PhoneAt(s, i) == Some(i + |p| + 10)
  {
    if |p| == 4 {
      assert s[i..i + 3] == p[..3] == "+91" && s[i + 3] == p[3];
    } else if |p| == 3 {
      assert s[i..i + 3] == "+91" && s[i + 3] == s[i + |p|];
      assert !IsPhoneSep(s[i + 3]);
    } else if |p| == 1 {
      assert s[i] == p[0];
      assert !HasPrefixAt(s, i, "+91") by { assert "+91"[0] == '+'; }
    } else {
      assert !HasPrefixAt(s, i, "+91") by { assert "+91"[0] == '+'; }
      assert !IsPhoneSep(s[i]);
    }
  }

  /** `extract_phone`: the leftmost phone match, or "Not found". A match is
      an optional "+91", an optional separator, and ten digits of which the
      first is 7, 8 or 9. */
  function ExtractPhone(s: string): (r: string)
    ensures r == NotFound <==> forall i :: 0 <= i <= |s| ==> PhoneAt(s, i).None?
    ensures r != NotFound ==>
      |r| >= 10 && MobileAt(r, |r| - 10) && PhonePrefix(r[..|r| - 10]) &&
      exists i :: LeftmostMatchAt(s, PhoneAt, i, r)
  {
    match FirstMatch(s, 0, PhoneAt)
    case None => NotFound
    case Some(i) =>
      var e := PhoneAt(s, i).value;
      var r := s[i..e];
      assert MobileAt(r, |r| - 10) by {
        forall k | |r| - 10 <= k < |r| ensures r[k] == s[i + k] { }
      }
      assert r[..|r| - 10] == s[i..e - 10];
      assert r != NotFound by { assert NotFound[|NotFound| - 1] == 'd'; }
      assert LeftmostMatchAt(s, PhoneAt, i, r);
      r
  }

  // ---------------------------------------------------------------------
  // Profile links: https://(www\.)?<keyword>\.com/[^\s)>\]]+

  predicate IsPathChar(c: char) { !IsSpace(c) && c != ')' && c != '>' && c != ']' }

  /** `<keyword>.com/` at `j` followed by the longest non-empty path. */
  function LinkTail(s: string, j: nat, keyword: string): (r: Option<nat>)
    ensures r.Some? ==> j + |keyword| + 5 < r.value <= |s| && HasPrefixAt(s, j, keyword + ".com/")
    ensures r.Some? ==> forall k :: j + |keyword| + 5 <= k < r.value ==> IsPathChar(s[k])
    ensures r.Some? ==> r.value == |s| || !IsPathChar(s[r.value])
  {
    if HasPrefixAt(s, j, keyword + ".com/") then
      var q := j + |keyword| + 5;
      var e := RunEnd(s, q, IsPathChar);
      if e > q then Some(e) else None
    else None
  }

  /** Where the keyword part of a link starting at `i` is looked for:
      after "https://www." when that works, otherwise right after
      "https://" (the regex tries the optional "www." first). */
  function KeywordStart(s: string, i: nat, keyword: string): (j: nat)
    ensures j == i + 8 || (j == i + 12 && HasPrefixAt(s, i + 8, "www."))
  {
    if HasPrefixAt(s, i + 8, "www.") && LinkTail(s, i + 12, keyword).Some? then i + 12 else i + 8
  }

  /** The link matcher at `i`: "https://", then the optional "www.", then
      `<keyword>.com/` and the path. */
  function LinkAt(s: string, i: nat, keyword: string): (r: Option<nat>)
    ensures r.Some? ==> i + 8 < r.value <= |s| && HasPrefixAt(s, i, "https://")
  {
    if HasPrefixAt(s, i, "https://") then LinkTail(s, KeywordStart(s, i, keyword), keyword) else None
  }

  /** The link matcher for one keyword, as a matcher over any text. */
  function LinkMatcher(keyword: string): (string, nat) -> Option<nat>
  {
    (t: string, i: nat) => LinkAt(t, i, keyword)
  }

  /** What a link match at `i` ending at `e` looks like. */
  lemma {:induction false} LinkMatchShape(s: string, i: nat, keyword: string, e: nat)
    requires LinkAt(s, i, keyword) == Some(e)
    ensures var r := s[i..e];
      HasPrefixAt(r, 0, "https://") &&
      (HasPrefixAt(r, 8, keyword + ".com/") || HasPrefixAt(r, 8, "www." + keyword + ".com/")) &&
      IsPathChar(r[|r| - 1])
  {
    var r := s[i..e];
    PrefixAtSlice(s, i, e, 0, "https://");
    var j := KeywordStart(s, i, keyword);
    var tail := keyword + ".com/";
    assert LinkTail(s, j, keyword) == Some(e);
    if j == i + 8 {
      PrefixAtSlice(s, i, e, 8, tail);
    } else {
      PrefixAtConcat(s, i + 8, "www.", tail);
      assert "www." + tail == "www." + keyword + ".com/";
      PrefixAtSlice(s, i, e, 8, "www." + tail);
    }
    assert r[|r| - 1] == s[e - 1];
  }

  /** The converse of `LinkMatchShape`: every "https://", optional "www.",
      `<keyword>.com/` and maximal non-empty path is matched. Like the
      greedy `(www\.)?`, the matcher prefers the "www." reading when both
      readings exist, so the plain reading's end is the match's end whenever
      no "www." follows "https://" (always, for a keyword not starting with
      'w', such as "linkedin" and "github"). */
  lemma {:induction false} LinkAtIsShape(s: string, i: nat, keyword: string, j: nat, e: nat)
    requires HasPrefixAt(s, i, "https://")
    requires j == i + 8 || (j == i + 12 && HasPrefixAt(s, i + 8, "www."))
    requires HasPrefixAt(s, j, keyword + ".com/")
    requires j + |keyword| + 5 < e <= |s|
    requires forall k :: j + |keyword| + 5 <= k < e ==> IsPathChar(s[k])
    requires e == |s| || !IsPathChar(s[e])
    ensures LinkAt(s, i, keyword).Some?
    ensures j == i + 12 || !HasPrefixAt(s, i + 8, "www.") ==> LinkAt(s, i, keyword) == Some(e)
    ensures j == i + 8 && (keyword == [] || keyword[0] != 'w') ==> LinkAt(s, i, keyword) == Some(e)
  {
    RunEndIs(s, j + |keyword| + 5, IsPathChar, e);
    assert LinkTail(s, j, keyword) == Some(e);
    if j == i + 8 && (keyword == [] || keyword[0] != 'w') {
      assert s[i + 8] == (keyword + ".com/")[0] != 'w';
      assert !HasPrefixAt(s, i + 8, "www.");
    }
  }

  /** `extract_links`: the leftmost link to `keyword`.com, or "Not found". A
      found link starts with "https://", names `keyword` followed by ".com/"
      right after it (or after "www."), and runs up to the first whitespace,
      ')', '>' or ']'. */
  function ExtractLink(s: string, keyword: string): (r: string)
    ensures r == NotFound <==> forall i :: 0 <= i <= |s| ==> LinkAt(s, i, keyword).None?
    ensures r != NotFound ==>
      HasPrefixAt(r, 0, "https://") &&
      (HasPrefixAt(r, 8, keyword + ".com/") || HasPrefixAt(r, 8, "www." + keyword + ".com/")) &&
      IsPathChar(r[|r| - 1])
    ensures r != NotFound ==> exists i :: LeftmostMatchAt(s, LinkMatcher(keyword), i, r)
  {
    var m := LinkMatcher(keyword);
    assert forall j: nat :: m(s, j) == LinkAt(s, j, keyword);
    match FirstMatch(s, 0, m)
    case None => NotFound
    case Some(i) =>
      var e := LinkAt(s, i, keyword).value;
      var r := s[i..e];
      LinkMatchShape(s, i, keyword, e);
      assert r != NotFound by { assert NotFound[0] == 'N' && r[0] == 'h'; }
      assert LeftmostMatchAt(s, m, i, r);
      r
  }

  // ---------------------------------------------------------------------
  // Name: the first line that is upper-case and shorter than 40 characters

  /** A line qualifies as the name when, stripped, it is upper-case in the
      sense of `str.isupper` and shorter than 40 characters. */
  predicate IsNameLine(line: string)
  {
    var t := Strip(line);
    IsUpperStr(t) && |t| < 40
  }

  /** The name the lines from index `i` on yield: the first qualifying line,
      stripped, or "Not found". */
  function NameFrom(lines: seq<string>, i: nat): (name: string)
    requires i <= |lines|
    ensures name == NotFound || (IsUpperStr(name) && |name| < 40 && Strip(name) == name)
    decreases |lines| - i
  {
    if i == |lines| then NotFound
    else if IsNameLine(lines[i]) then
      TrimIdempotent(lines[i], Whitespace);
      Strip(lines[i])
    else NameFrom(lines, i + 1)
  }

  /** `extract_name` as a value: the name found among the text's lines. A
      found name is upper-case, shorter than 40 characters and has no
      surrounding whitespace. */
  function NameOf(text: string): (name: string)
    ensures name == NotFound || (IsUpperStr(name) && |name| < 40 && Strip(name) == name)
  {
    NameFrom(Split(text, '\n'), 0)
  }

  /** "Not found" is not upper-case, so it never doubles as a name. */
  lemma {:induction false} NotFoundIsNoName()
    ensures !IsUpperStr(NotFound)
  {
    assert IsLowerChar(NotFound[1]);
  }

  /** Line `j` is the first qualifying line from index `i` on. */
  predicate IsFirstNameLine(lines: seq<string>, i: nat, j: nat)
  {
    i <= j < |lines| && IsNameLine(lines[j]) && forall k :: i <= k < j ==> !IsNameLine(lines[k])
  }

  /** The name is the stripped form of the first qualifying line, and it is
      "Not found" exactly when no line qualifies. */
  lemma {:induction false} NameFromIsFirstNameLine(lines: seq<string>, i: nat)
    requires i <= |lines|
    ensures NameFrom(lines, i) == NotFound <==> forall j :: i <= j < |lines| ==> !IsNameLine(lines[j])
    ensures NameFrom(lines, i) != NotFound ==>
      exists j: nat :: IsFirstNameLine(lines, i, j) && NameFrom(lines, i) == Strip(lines[j])
    decreases |lines| - i
  {
    if i < |lines| {
      if IsNameLine(lines[i]) {
        NotFoundIsNoName();
        assert NameFrom(lines, i) == Strip(lines[i]) != NotFound;
        assert IsFirstNameLine(lines, i, i);
      } else {
        NameFromIsFirstNameLine(lines, i + 1);
        assert NameFrom(lines, i) == NameFrom(lines, i + 1);
        assert (forall j :: i <= j < |lines| ==> !IsNameLine(lines[j])) <==>
          (forall j :: i + 1 <= j < |lines| ==> !IsNameLine(lines[j]));
        if NameFrom(lines, i) != NotFound {
          var j: nat :| IsFirstNameLine(lines, i + 1, j) && NameFrom(lines, i + 1) == Strip(lines[j]);
          assert IsFirstNameLine(lines, i, j);
        }
      }
    }
  }

  /** `extract_name`: scans the lines of the text in order and returns at
      the first one that qualifies. */
  method ExtractName(text: string) returns (name: string)
    ensures name == NameOf(text)
  {
    var lines := Split(text, '\n');
    var i := 0;
    while i < |lines|
      invariant 0 <= i <= |lines|
      invariant NameFrom(lines, i) == NameFrom(lines, 0)
    {
      var candidate := Strip(lines[i]);
      if IsUpperStr(candidate) && |candidate| < 40 {
        return candidate;
      }
      i := i + 1;
    }
    return NotFound;
  }
}
