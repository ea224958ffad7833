/** ASCII text primitives with the meaning Python's `str` methods give them:
    `isspace`, `lower`, `upper`, `in`, `strip`, `split()`, `split(sep)`,
    `join` and `replace` on single characters. Characters are restricted to
    ASCII, so the Unicode tables behind these methods reduce to the ranges
    below. */
module Text {

  /** The ASCII characters for which `str.isspace()` holds (and which regex
      `\s` matches): tab, line feed, vertical tab, form feed, carriage return,
      the four information separators 0x1C-0x1F, and the space. */
  const Whitespace: set<char> :=
    {' ', '\t', '\n', '\U{B}', '\U{C}', '\r', '\U{1C}', '\U{1D}', '\U{1E}', '\U{1F}'}

  predicate IsSpace(c: char) { c in Whitespace }

  predicate IsUpperChar(c: char) { 'A' <= c <= 'Z' }

  predicate IsLowerChar(c: char) { 'a' <= c <= 'z' }

  predicate IsDigit(c: char) { '0' <= c <= '9' }

  /** Regex `\w` on ASCII: letters, digits and the underscore. */
  predicate IsWordChar(c: char) { IsUpperChar(c) || IsLowerChar(c) || IsDigit(c) || c == '_' }

  function ToLower(c: char): (d: char)
    ensures !IsUpperChar(d)
    ensures IsUpperChar(c) ==> IsLowerChar(d) && d as int == c as int + 32
    ensures !IsUpperChar(c) ==> d == c
    ensures IsSpace(d) == IsSpace(c) && IsWordChar(d) == IsWordChar(c)
  {
    if IsUpperChar(c) then (c as int + 32) as char else c
  }

  function ToUpper(c: char): (d: char)
    ensures !IsLowerChar(d)
    ensures IsLowerChar(c) ==> IsUpperChar(d) && d as int == c as int - 32
    ensures !IsLowerChar(c) ==> d == c
    ensures IsSpace(d) == IsSpace(c) && IsWordChar(d) == IsWordChar(c)
  {
    if IsLowerChar(c) then (c as int - 32) as char else c
  }

  /** `s.lower()` */
  function Lower(s: string): (r: string)
    ensures |r| == |s|
    ensures forall i :: 0 <= i < |s| ==> r[i] == ToLower(s[i])
  {
    seq(|s|, i requires 0 <= i < |s| => ToLower(s[i]))
  }

  /** `s.upper()` */
  function Upper(s: string): (r: string)
    ensures |r| == |s|
    ensures forall i :: 0 <= i < |s| ==> r[i] == ToUpper(s[i])
  {
    seq(|s|, i requires 0 <= i < |s| => ToUpper(s[i]))
  }

  /** Upper-casing forgets the case the text was written in. */
  lemma {:induction false} UpperOfLower(s: string)
    ensures Upper(Lower(s)) == Upper(s)
  {
    assert forall i :: 0 <= i < |s| ==> ToUpper(ToLower(s[i])) == ToUpper(s[i]);
  }

  /** Python's `str.isupper()` on ASCII: at least one cased character, and
      no lower-case one. */
  predicate IsUpperStr(s: string)
  {
    (exists i :: 0 <= i < |s| && IsUpperChar(s[i])) && forall i :: 0 <= i < |s| ==> !IsLowerChar(s[i])
  }

  /** `s[i:].startswith(p)`, for an index inside the string. */
  predicate HasPrefixAt(s: string, i: nat, p: string)
  {
    i + |p| <= |s| && s[i..i + |p|] == p
  }

  /** A slice of a slice is a slice of the original. */
  lemma {:induction false} SliceOfSlice<T>(s: seq<T>, i: nat, e: nat, a: nat, b: nat)
    requires i <= e <= |s| && a <= b <= e - i
    ensures s[i..e][a..b] == s[i + a..i + b]
  {
    var x, y := s[i..e][a..b], s[i + a..i + b];
    forall n | 0 <= n < b - a ensures x[n] == y[n] {
      assert x[n] == s[i..e][a + n] == s[i + a + n];
    }
  }

  lemma {:induction false} PrefixAtConcat(s: string, i: nat, a: string, b: string)
    requires HasPrefixAt(s, i, a) && HasPrefixAt(s, i + |a|, b)
    ensures HasPrefixAt(s, i, a + b)
  {
    assert s[i..i + |a + b|] == s[i..i + |a|] + s[i + |a|..i + |a| + |b|];
  }

  lemma {:induction false} PrefixAtSlice(s: string, i: nat, e: nat, k: nat, p: string)
    requires i + k + |p| <= e <= |s| && HasPrefixAt(s, i + k, p)
    ensures HasPrefixAt(s[i..e], k, p)
  {
    SliceOfSlice(s, i, e, k, k + |p|);
  }

  /** Python's `sub in s`. */
  predicate Contains(s: string, sub: string)
  {
    exists i :: 0 <= i <= |s| && sub <= s[i..]
  }

  /** End of the longest run of characters satisfying `p` that starts at `i`. */
  function RunEnd(s: string, i: nat, p: char -> bool): (j: nat)
    requires i <= |s|
    ensures i <= j <= |s|
    ensures forall k :: i <= k < j ==> p(s[k])
    ensures j == |s| || !p(s[j])
    decreases |s| - i
  {
    if i < |s| && p(s[i]) then RunEnd(s, i + 1, p) else i
  }

  /** A run end is determined by its two defining properties. */
  lemma {:induction false} RunEndIs(s: string, i: nat, p: char -> bool, j: nat)
    requires i <= j <= |s|
    requires forall k :: i <= k < j ==> p(s[k])
    requires j == |s| || !p(s[j])
    ensures RunEnd(s, i, p) == j
    decreases j - i
  {
    if i < j {
      RunEndIs(s, i + 1, p, j);
    }
  }

  /** `s.lstrip(chars)` */
  function TrimStart(s: string, chars: set<char>): (r: string)
    ensures |r| <= |s|
    ensures r == [] || r[0] !in chars
  {
    if s != [] && s[0] in chars then TrimStart(s[1..], chars) else s
  }

  /** What `lstrip` removes is a prefix of trimmed characters. */
  lemma {:induction false} TrimStartIsSuffix(s: string, chars: set<char>)
    ensures TrimStart(s, chars) == s[|s| - |TrimStart(s, chars)|..]
    ensures forall k :: 0 <= k < |s| - |TrimStart(s, chars)| ==> s[k] in chars
  {
    if s != [] && s[0] in chars {
      TrimStartIsSuffix(s[1..], chars);
      assert s[1..][|s| - 1 - |TrimStart(s[1..], chars)|..] == s[|s| - |TrimStart(s[1..], chars)|..];
    }
  }

  /** `s.rstrip(chars)` */
  function TrimEnd(s: string, chars: set<char>): (r: string)
    ensures |r| <= |s|
    ensures r == [] || r[|r| - 1] !in chars
  {
    if s != [] && s[|s| - 1] in chars then TrimEnd(s[..|s| - 1], chars) else s
  }

  /** What `rstrip` removes is a suffix of trimmed characters. */
  lemma {:induction false} TrimEndIsPrefix(s: string, chars: set<char>)
    ensures TrimEnd(s, chars) == s[..|TrimEnd(s, chars)|]
    ensures forall k :: |TrimEnd(s, chars)| <= k < |s| ==> s[k] in chars
  {
    if s != [] && s[|s| - 1] in chars {
      TrimEndIsPrefix(s[..|s| - 1], chars);
      assert s[..|s| - 1][..|TrimEnd(s[..|s| - 1], chars)|] == s[..|TrimEnd(s[..|s| - 1], chars)|];
    }
  }

  /** `s.strip(chars)`: the middle part of `s` left once every leading and
      trailing character from `chars` is removed. */
  function Trim(s: string, chars: set<char>): (r: string)
    ensures |r| <= |s|
    ensures r == [] || (r[0] !in chars && r[|r| - 1] !in chars)
  {
    var t := TrimStart(s, chars);
    TrimEndIsPrefix(t, chars);
    TrimEnd(t, chars)
  }

  /** The trimmed string is the slice between two cut points, with only
      trimmed characters outside them. */
  lemma {:induction false} TrimSlice(s: string, chars: set<char>) returns (a: nat, b: nat)
    ensures a <= b <= |s| && Trim(s, chars) == s[a..b]
    ensures forall k :: 0 <= k < a ==> s[k] in chars
    ensures forall k :: b <= k < |s| ==> s[k] in chars
  {
    var t := TrimStart(s, chars);
    TrimStartIsSuffix(s, chars);
    TrimEndIsPrefix(t, chars);
    a := |s| - |t|;
    b := a + |TrimEnd(t, chars)|;
    assert t[..b - a] == s[a..b];
  }

  /** A string made only of trimmed characters trims to nothing. */
  lemma {:induction false} TrimAll(s: string, chars: set<char>)
    requires forall k :: 0 <= k < |s| ==> s[k] in chars
    ensures Trim(s, chars) == []
  {
    var a, b := TrimSlice(s, chars);
    if a < b {
      assert false;
    }
  }

  /** `s.strip()` */
  function Strip(s: string): (r: string)
    ensures |r| <= |s|
    ensures r == [] || (!IsSpace(r[0]) && !IsSpace(r[|r| - 1]))
  {
    Trim(s, Whitespace)
  }

  /** Trimming leaves a string alone exactly when neither end can be trimmed. */
  lemma {:induction false} TrimUnchanged(s: string, chars: set<char>)
    requires s == [] || (s[0] !in chars && s[|s| - 1] !in chars)
    ensures Trim(s, chars) == s
  {
  }

  /** Trimming twice is trimming once. */
  lemma {:induction false} TrimIdempotent(s: string, chars: set<char>)
    ensures Trim(Trim(s, chars), chars) == Trim(s, chars)
  {
    TrimUnchanged(Trim(s, chars), chars);
  }

  /** Length of the leading run of non-whitespace characters. */
  function WordEnd(s: string): (n: nat)
    ensures n <= |s|
    ensures forall k :: 0 <= k < n ==> !IsSpace(s[k])
    ensures n == |s| || IsSpace(s[n])
  {
    RunEnd(s, 0, c => !IsSpace(c))
  }

  /** `s.split()`: the maximal runs of non-whitespace characters, in order. */
  function Words(s: string): (ws: seq<string>)
    ensures forall k :: 0 <= k < |ws| ==> ws[k] != [] && NoSpace(ws[k])
    decreases |s|
  {
    if s == [] then []
    else if IsSpace(s[0]) then Words(s[1..])
    else
      var n := WordEnd(s);
      [s[..n]] + Words(s[n..])
  }

  predicate NoSpace(w: string) { forall k :: 0 <= k < |w| ==> !IsSpace(w[k]) }

  /** `s` with every whitespace character deleted. */
  function DropSpaces(s: string): (r: string)
    ensures NoSpace(r)
  {
    if s == [] then [] else (if IsSpace(s[0]) then [] else [s[0]]) + DropSpaces(s[1..])
  }

  function Concat(ws: seq<string>): string
  {
    if ws == [] then [] else ws[0] + Concat(ws[1..])
  }

  lemma {:induction false} DropSpacesAppend(a: string, b: string)
    ensures DropSpaces(a + b) == DropSpaces(a) + DropSpaces(b)
  {
    if a == [] {
      assert a + b == b;
    } else {
      assert (a + b)[1..] == a[1..] + b;
      DropSpacesAppend(a[1..], b);
    }
  }

  lemma {:induction false} DropSpacesOfWord(w: string)
    requires NoSpace(w)
    ensures DropSpaces(w) == w
  {
    if w != [] {
      DropSpacesOfWord(w[1..]);
    }
  }

  /** Splitting on whitespace loses exactly the whitespace: gluing the words
      back together gives the text with its whitespace deleted. */
  lemma {:induction false} WordsLoseOnlySpaces(s: string)
    ensures Concat(Words(s)) == DropSpaces(s)
    decreases |s|
  {
    if s == [] {
    } else if IsSpace(s[0]) {
      WordsLoseOnlySpaces(s[1..]);
    } else {
      var n := WordEnd(s);
      assert s == s[..n] + s[n..];
      WordsLoseOnlySpaces(s[n..]);
      DropSpacesAppend(s[..n], s[n..]);
      DropSpacesOfWord(s[..n]);
      assert Words(s) == [s[..n]] + Words(s[n..]);
      assert ([s[..n]] + Words(s[n..]))[1..] == Words(s[n..]);
    }
  }

  /** A non-empty run without whitespace is one token. */
  lemma {:induction false} WordsOfWord(w: string)
    requires w != [] && NoSpace(w)
    ensures Words(w) == [w]
  {
    var n := WordEnd(w);
    assert n == |w|;
    assert w[..n] == w && w[n..] == [];
  }

  /** The leading token of a text ends no later than a whitespace
      character placed after it. */
  lemma {:induction false} WordEndBeforeSpace(a: string, c: char, b: string)
    requires IsSpace(c)
    ensures WordEnd(a + [c] + b) == WordEnd(a)
  {
    var x, m := a + [c] + b, WordEnd(a);
    assert x[|a|] == c;
    assert forall k :: 0 <= k < |a| ==> x[k] == a[k];
    assert IsSpace(x[m]);
    assert forall k :: 0 <= k < m ==> !IsSpace(x[k]);
  }

  /** A whitespace character is a token boundary: the tokens of the text
      around it are the tokens of each side. */
  lemma {:induction false} WordsSplitAtSpace(a: string, c: char, b: string)
    requires IsSpace(c)
    ensures Words(a + [c] + b) == Words(a) + Words(b)
    decreases |a|
  {
    var x := a + [c] + b;
    if a == [] {
      assert x[1..] == b;
    } else if IsSpace(a[0]) {
      assert x[1..] == a[1..] + [c] + b;
      WordsSplitAtSpace(a[1..], c, b);
    } else {
      var m := WordEnd(a);
      WordEndBeforeSpace(a, c, b);
      assert x[..m] == a[..m];
      assert x[m..] == a[m..] + [c] + b;
      WordsSplitAtSpace(a[m..], c, b);
    }
  }

  /** Index of the first occurrence of `c` in `s`, or `|s|`. */
  function IndexOfChar(s: string, c: char): (k: nat)
    ensures k <= |s|
    ensures k < |s| ==> s[k] == c
    ensures forall j :: 0 <= j < k ==> s[j] != c
  {
    RunEnd(s, 0, d => d != c)
  }

  /** `s.split(sep)` for a one-character separator: always at least one part,
      empty parts kept. */
  function Split(s: string, sep: char): (parts: seq<string>)
    ensures |parts| >= 1
    ensures forall k :: 0 <= k < |parts| ==> sep !in parts[k]
    decreases |s|
  {
    var k := IndexOfChar(s, sep);
    if k == |s| then [s] else [s[..k]] + Split(s[k + 1..], sep)
  }

  /** `sep.join(parts)` */
  function Join(parts: seq<string>, sep: string): string
  {
    if parts == [] then []
    else if |parts| == 1 then parts[0]
    else parts[0] + sep + Join(parts[1..], sep)
  }

  /** Joining one more part appends the separator and that part. */
  lemma {:induction false} JoinSnoc(parts: seq<string>, x: string, sep: string)
    requires parts != []
    ensures Join(parts + [x], sep) == Join(parts, sep) + sep + x
    decreases |parts|
  {
    if |parts| > 1 {
      JoinSnoc(parts[1..], x, sep);
      assert (parts + [x])[1..] == parts[1..] + [x];
    }
  }

  /** Splitting on a character and joining with it again gives back the text. */
  lemma {:induction false} JoinSplit(s: string, sep: char)
    ensures Join(Split(s, sep), [sep]) == s
    decreases |s|
  {
    var k := IndexOfChar(s, sep);
    if k < |s| {
      var rest := Split(s[k + 1..], sep);
      JoinSplit(s[k + 1..], sep);
      assert Split(s, sep) == [s[..k]] + rest;
      assert ([s[..k]] + rest)[1..] == rest;
      assert s == s[..k] + [sep] + s[k + 1..];
    }
  }

  /** `s.replace(from, to)` for single characters. */
  function ReplaceChar(s: string, from: char, to: char): (r: string)
    ensures |r| == |s|
    ensures forall i :: 0 <= i < |s| ==> r[i] == (if s[i] == from then to else s[i])
  {
    seq(|s|, i requires 0 <= i < |s| => if s[i] == from then to else s[i])
  }
}
