# Resume parser, modelled in Dafny

This project models the core of a small resume parser and its upload page.

The parser reads the text of a PDF resume and fills a fixed record:
- a name;
- a designation;
- e-mail, phone, LinkedIn and GitHub fields;
- a skill set;
- three fixed sections (education, achievements and projects);
- a predicted role;
- a ranked role comparison;
- a text preview.

The upload page adds two things to each parsed record:
- the uploaded file name;
- when a job description is given, a job-description score and a check of the desired role against the predicted one.

The modules follow the two source files:

| module | file | what it models |
|---|---|---|
| `Text` | text.dfy | Python's `str` methods on ASCII text: `lower`, `upper`, `isupper`, `in`, `strip`, `split()`, `split(sep)`, `join`, `replace` |
| `PdfText` | pdf_text.dfy | Joining page texts into one stripped text. A method with the source's loop. |
| `Roles` | roles.dfy | The role-keyword taxonomy, the per-role hit counts, the stable descending sort and `best_role` |
| `JdMatch` | jd_match.dfy | Job-description keywords, matched and missing keywords, and the percentage score |
| `Extractors` | extractors.dfy | The name scan (a method with the source's loop and early return). The leftmost regex searches for e-mail, phone and profile links, each written as an explicit matcher plus a leftmost search. |
| `Skills` | skills.dfy | The case-insensitive, word-bounded `findall` over the skill vocabulary, upper-cased into a set |
| `ResumeParser` | parser.dfy | The parsed record and `parse_resume` |
| `App` | app.dfy | The per-file steps of the upload page. `ParsedEntry` is a class whose job-description fields the page sets in place. |

How the model represents the source:
- Text is `seq<char>` restricted in meaning to ASCII.
- A page that yields no text is `None`.
- A regex search is a matcher function `(text, position) -> end option` plus a leftmost search over positions.

Two behaviours of the code are worth knowing:
- **Job-description token length.** `len(word) > 2` is tested on the raw token (resume_parser.py:91), before lower-casing and stripping. So `---` is kept and becomes the empty keyword (`JdMatch.PunctuationTokenIsEmptyKeyword`).
- **"C++" skill.** The closing `\b` after `c\+\+` needs a word character after the `+`. So "C++" at the end of the text, or before a space, comma or full stop, is never extracted (`Skills.CppNeedsWordCharAfter`).

## Model

| member | source | states |
|---|---|---|
| Text.Lower | resume_parser.py:82 | `lower()` keeps the length and lower-cases each character, leaving non-letters alone |
| Text.Upper | resume_parser.py:58 | `upper()` keeps the length and upper-cases each character |
| Text.UpperOfLower | resume_parser.py:57-58 | `Upper(Lower(s)) == Upper(s)` for every `s`: upper-casing forgets the case the text was written in |
| Text.IsUpperStr | resume_parser.py:39 | `str.isupper()`: at least one upper-case letter and no lower-case one. `Extractors.NameFrom` states its result through it |
| Text.Contains | resume_parser.py:82 | Python's `sub in s`: some position of `s` starts with `sub`. `Roles.HitsCountsKeywords` and `App.NamedIn` are stated through it |
| Text.Trim | resume_parser.py:91 | `strip(chars)` is never longer than its input and leaves no character from `chars` at either end. `Text.TrimSlice` pins the exact slice |
| Text.Strip | resume_parser.py:34 | `strip()` is never longer than its input and leaves no whitespace at either end |
| Text.TrimStartIsSuffix | resume_parser.py:91 | `lstrip` returns a suffix of its input, and what it removed is made only of stripped characters |
| Text.TrimEndIsPrefix | resume_parser.py:91 | `rstrip` returns a prefix of its input, and what it removed is made only of stripped characters |
| Text.TrimSlice | resume_parser.py:91 | `strip(chars)` is a slice of its input, and only characters from `chars` lie outside it |
| Text.TrimAll | resume_parser.py:91 | A string made only of stripped characters strips to the empty string |
| Text.TrimIdempotent | resume_parser.py:34 | A general fact about `strip`: stripping twice is the same as stripping once. `Extractors.NameFrom` uses it to show that a found name is already stripped |
| Text.Words | resume_parser.py:91 | Every token of `split()` is non-empty and holds no whitespace |
| Text.WordsOfWord | resume_parser.py:91 | A non-empty run without whitespace is a single token |
| Text.WordsSplitAtSpace | resume_parser.py:91 | Every whitespace character is a token boundary: the tokens around it are the tokens of each side, in order |
| Text.WordsLoseOnlySpaces | resume_parser.py:91 | Concatenating the tokens of `split()` gives the text with its whitespace deleted, so nothing else is lost or reordered |
| Text.Split | resume_parser.py:38 | `split('\n')` yields at least one part, and no part contains the separator |
| Text.JoinSplit | resume_parser.py:38 | Joining the parts of `split(sep)` with `sep` gives back the text |
| Text.ReplaceChar | app.py:123 | `replace(' ', '_')` keeps the length, replaces every space and keeps every other character |
| Roles.Hits | resume_parser.py:82 | A role's score never exceeds its number of keywords |
| Roles.HitsCountsKeywords | resume_parser.py:82 | A role's score is the number of its keywords (with repetition) that are substrings of the lower-cased text |
| Roles.Scores | resume_parser.py:82 | One score per taxonomy role, in declaration order and under the role's own name |
| Roles.InsertKeepsSorted | resume_parser.py:83 | Inserting an entry at its place keeps a descending ranking descending |
| Roles.InsertAddsOne | resume_parser.py:83 | Insertion adds exactly the new entry and loses none |
| Roles.InsertSorted | resume_parser.py:83 | Inserting into a ranking keeps it sorted by descending count and adds exactly the new entry |
| Roles.SortByCount | resume_parser.py:83 | `sorted(..., reverse=True)` on the counts gives a descending ranking that is a permutation of its input |
| Roles.InsertBeforeEqual | resume_parser.py:83 | An inserted entry lands before every entry that already has its count |
| Roles.InsertKeepsOrder | resume_parser.py:83 | Insertion keeps the relative order of the other entries |
| Roles.SortIsStable | resume_parser.py:83 | Two entries with equal counts keep their input order |
| Roles.SortKeepsNames | resume_parser.py:83 | Sorting neither drops nor duplicates a role name |
| Roles.PredictAllRoles | resume_parser.py:81-84 | The ranking has one entry per taxonomy role, is sorted by descending count, and is a permutation of the per-role scores |
| Roles.PredictAllRolesAreTaxonomy | resume_parser.py:81-84 | The ranked names are the taxonomy's names, each once, and each entry carries its own role's hit count |
| Roles.PredictAllRolesStable | resume_parser.py:81-84 | With distinct role names, roles with equal counts are ranked in declaration order |
| Roles.RankingTopIsMax | resume_parser.py:83-87 | No role scores higher than the first ranked entry |
| Roles.BestRole | resume_parser.py:86-87 | A role other than "Uncategorized" is the top entry, which has a hit. On a sorted ranking where some role has a hit, the top entry is chosen |
| Roles.BestRoleOfRanking | resume_parser.py:86-87 | `best_role` is "Uncategorized" exactly when every role scores 0; otherwise it is the first ranked role, and no role scores higher |
| Roles.RoleKeywordsWellFormed | resume_parser.py:17-25 | The built-in taxonomy has 7 distinct role names, none of them "Uncategorized" |
| JdMatch.TrimOfCleanToken | resume_parser.py:91 | Lower-casing and stripping a whitespace-free token leaves no upper-case letter and no punctuation at either end |
| JdMatch.Keyword | resume_parser.py:91 | The keyword a token becomes: lower-cased, then stripped of punctuation. Its properties are stated by `JdMatch.TrimOfCleanToken` |
| JdMatch.KeywordsOf | resume_parser.py:91 | The keywords of a token sequence, keeping only raw tokens longer than two characters. `JdMatch.KeywordsOfIs` states it as the comprehension |
| JdMatch.JdKeywords | resume_parser.py:91 | The keyword set of a job description: `KeywordsOf` over its whitespace tokens |
| JdMatch.KeywordsOfIs | resume_parser.py:91 | The keyword set is the set of cleaned forms of the whitespace tokens longer than two characters |
| JdMatch.JdKeywordsAreClean | resume_parser.py:91 | Every keyword has no whitespace, no upper-case letter and no punctuation at either end |
| JdMatch.PunctuationTokenIsEmptyKeyword | resume_parser.py:91 | A token of three or more punctuation characters puts the empty string into the keyword set |
| JdMatch.LowerSkills | resume_parser.py:92 | The resume skills, lower-cased. `JdMatch.ScoreAgainstJdPartitions` states membership in it as "some skill lower-cases to the keyword" |
| JdMatch.PercentValue | resume_parser.py:95 | `len(matched) / len(jd_keywords) * 100` as an exact fraction, and 0 for an empty keyword set. `JdMatch.PercentFacts` bounds it |
| JdMatch.ScoreAgainstJd | resume_parser.py:90-102 | Matched and missing split the keyword set into two disjoint parts, and the score is the matched share of the two together |
| JdMatch.ScoreAgainstJdPartitions | resume_parser.py:92-94 | Matched and missing are disjoint and cover the keyword set, and a keyword is matched exactly when some skill lower-cases to it |
| JdMatch.PercentFacts | resume_parser.py:95 | The percentage of `m` hits out of `m + x` lies between 0 and 100, and is 100 exactly when `x` is 0 |
| JdMatch.JdScoreFacts | resume_parser.py:95 | The score is matched over keywords as a percentage: 0 for no keywords, otherwise between 0 and 100, and 100 exactly when nothing is missing |
| PdfText.HasText | resume_parser.py:32 | The truthiness test `if page.extract_text():` holds when the page's text is present and non-empty |
| PdfText.PageTexts | resume_parser.py:31-33 | Every text in the result is non-empty and is the text of some page, and every page with text has its text in the result. The page order comes from the definition |
| PdfText.Accumulated | resume_parser.py:29-33 | The text built up page by page before stripping. `PdfText.AccumulatedIsJoin` states it as a join |
| PdfText.AccumulatedIsJoin | resume_parser.py:29-33 | Before stripping, the text is the page texts joined by newlines plus a final newline, or empty |
| PdfText.ExtractText | resume_parser.py:28-34 | The loop's result is the stripped concatenation of each text page followed by a newline |
| PdfText.NoTextPagesHaveNoTexts | resume_parser.py:31-33 | A document without text pages contributes no page text |
| PdfText.NoTextPagesGiveEmpty | resume_parser.py:28-34 | A document without text pages yields the empty text |
| Extractors.FirstMatch | resume_parser.py:44-45 | `re.search` gives the leftmost position where the matcher succeeds, and none when it fails everywhere |
| Extractors.EmailAt | resume_parser.py:44 | An e-mail match ends after its start and inside the text |
| Extractors.EmailAtIsShape | resume_parser.py:44 | The e-mail matcher succeeds exactly on greedy `[\w.-]+@[\w.-]+` shapes, in both directions |
| Extractors.ExtractEmail | resume_parser.py:43-45 | "Not found" exactly when no position matches; otherwise the text of the leftmost match |
| Extractors.PhoneAt | resume_parser.py:48 | A phone match is an allowed prefix (nothing, a separator, "+91", or "+91" and a separator) followed by ten digits starting with 7, 8 or 9 |
| Extractors.PhoneAtIsShape | resume_parser.py:48 | The converse: wherever an allowed prefix is followed by such ten digits, the matcher matches exactly that text |
| Extractors.ExtractPhone | resume_parser.py:47-49 | "Not found" exactly when no position matches; otherwise the leftmost match, made of an allowed prefix and a mobile number |
| Extractors.LinkTail | resume_parser.py:52 | After `<keyword>.com/` comes the longest non-empty run of characters that are not whitespace, `)`, `>` or `]` |
| Extractors.KeywordStart | resume_parser.py:52 | The keyword is looked for right after "https://", or after "https://www." |
| Extractors.LinkAt | resume_parser.py:52 | A link match starts with "https://" and ends inside the text |
| Extractors.LinkAtIsShape | resume_parser.py:52 | The converse of `LinkMatchShape`. Every "https://", optional "www.", `<keyword>.com/` and maximal non-empty path is matched. When both readings exist the "www." one wins, as with the greedy `(www\.)?`. The plain reading's end is the match's end for keywords that do not start with 'w' |
| Extractors.LinkMatchShape | resume_parser.py:52 | A matched link starts with "https://", then `<keyword>.com/` or `www.<keyword>.com/`, and ends in a path character |
| Extractors.ExtractLink | resume_parser.py:51-54 | "Not found" exactly when no position matches; otherwise the leftmost link, of that shape |
| Extractors.NotFoundIsNoName | resume_parser.py:39-41 | "Not found" is not upper-case, so it never doubles as a found name |
| Extractors.IsNameLine | resume_parser.py:39 | A line qualifies when, stripped, it is upper-case and shorter than 40 characters. `Extractors.NameFromIsFirstNameLine` states the name through it |
| Extractors.NameFrom | resume_parser.py:37-41 | The name found from a given line on is "Not found" or upper-case, shorter than 40 characters and without surrounding whitespace |
| Extractors.NameOf | resume_parser.py:37-41 | The same for the whole text split into lines |
| Extractors.NameFromIsFirstNameLine | resume_parser.py:37-41 | The name is the stripped first line that is upper-case and shorter than 40 characters, and "Not found" exactly when no line qualifies |
| Extractors.ExtractName | resume_parser.py:37-41 | The loop returns the name of the first qualifying line, or "Not found" |
| Skills.BoundaryAt | resume_parser.py:57 | Regex `\b` at a position: a word character on exactly one side. `Skills.CppNeedsWordCharAfter` shows its effect after "c++" |
| Skills.WordAt | resume_parser.py:57 | One alternative `\b<w>\b` under `(?i)`: the text at the position lower-cases to `w`, with a boundary on each side. `Skills.ExtractSkillsExactly` is stated through it |
| Skills.AlternativeAt | resume_parser.py:57 | At a position, the alternation takes a vocabulary word that matches there with both word boundaries |
| Skills.AlternativeAtIsFirst | resume_parser.py:57 | The alternation takes the first matching word in vocabulary order, and fails only when no word matches |
| Skills.FindWords | resume_parser.py:57 | `re.findall` from a position: take the first alternative that matches and resume after it, or move one character on. `Skills.FindWordsSound` and `Skills.FindWordsComplete` state what it reports |
| Skills.FindWordsSound | resume_parser.py:57 | Every text `findall` reports is a word-bounded match of some vocabulary word at or after the scan start |
| Skills.FindWordsComplete | resume_parser.py:57 | When matches cannot overlap, every match at or after the scan start is among the reported texts |
| Skills.WordMatchText | resume_parser.py:57-58 | The text of a match upper-cases to the upper-cased word, and the word occurs in the text |
| Skills.MatchOccurs | resume_parser.py:57-58 | A reported match is a vocabulary word up to case, and that word occurs word-bounded in the text |
| Skills.WordMatchesOccur | resume_parser.py:57-58 | Every reported match is a vocabulary word up to case that occurs in the text |
| Skills.UpperAll | resume_parser.py:58 | The set of upper-cased matches. `Skills.UpperAllMembers` states that it holds exactly those |
| Skills.UpperAllMembers | resume_parser.py:58 | The upper-cased set holds exactly the upper-cased matches |
| Skills.ExtractSkills | resume_parser.py:56-58 | Every skill is an upper-cased vocabulary word that occurs word-bounded in the text |
| Skills.VocabularyIsWellFormed | resume_parser.py:57 | Every vocabulary word has two or more characters, starts with a letter, and is all letters except "c++" |
| Skills.NotWordInside | resume_parser.py:57 | No vocabulary word matches strictly inside the match of another |
| Skills.ShorterWordNotAt | resume_parser.py:57 | A shorter vocabulary word cannot match where a longer one matched |
| Skills.LongerWordNotAt | resume_parser.py:57 | A longer vocabulary word cannot match where a shorter one matched |
| Skills.OneWordPerPosition | resume_parser.py:57 | Two different vocabulary words never match at the same position |
| Skills.NextMatchBound | resume_parser.py:57 | Two vocabulary matches are the same match or do not overlap |
| Skills.WordMatcherNoOverlap | resume_parser.py:57 | Vocabulary matches on any text never overlap |
| Skills.VocabularyWordNotUpper | resume_parser.py:58 | No vocabulary word contains an upper-case letter |
| Skills.UpperInjective | resume_parser.py:58 | Upper-casing tells apart words without upper-case letters |
| Skills.ExtractSkillsExactly | resume_parser.py:56-58 | A vocabulary word's upper-case form is a skill exactly when the word occurs word-bounded in the text, in any case |
| Skills.CppNeedsWordCharAfter | resume_parser.py:57 | "c++" matches only when a word character follows it |
| ResumeParser.RecordOf | resume_parser.py:105-125 | The record `parse_resume` fills from the text, one field per extractor. `ResumeParser.RecordRoles` states its role fields |
| ResumeParser.Designation | resume_parser.py:112 | "Aspiring " followed by the role, or "Not Found" when the role is "Uncategorized" |
| ResumeParser.Preview | resume_parser.py:123 | The first 500 characters of the text (or all of it), followed by "..." |
| ResumeParser.ParseResume | resume_parser.py:105-125 | Running the page loop and the line loop gives exactly the record of the stripped, joined page texts |
| ResumeParser.RecordRoles | resume_parser.py:107-122 | The comparison ranks every role once by descending count. "Uncategorized" is predicted, and "Not Found" designated, exactly when no keyword hits. Otherwise the top-ranked role is predicted and designated "Aspiring ..." |
| App.NamedIn | app.py:58 | A role is named when its lower-cased name is a substring of the lower-cased description |
| App.DesiredRole | app.py:56-60 | The desired role is the first role of the comparison named in the description, and none only when no role is named |
| App.FindDesiredRole | app.py:56-60 | The loop with `break` finds exactly that first named role |
| App.FirstNamedBeatsNamed | app.py:56-60 | The first named role in the ranking scores at least as high as every named role, and ties only with roles declared no earlier |
| App.DesiredRoleIsTopNamed | app.py:56-60 | The desired role is the top-scoring role among those named, and among ties the one declared first |
| App.LookupLast | app.py:63 | `dict(pairs).get(role, 0)` gives 0 for an absent name, and the count of the last pair with that name otherwise |
| App.LookupLastFound | app.py:63 | A name present in the comparison is looked up at its last entry |
| App.LookupRankedRole | app.py:63 | Looking a taxonomy role up in the ranking gives its hit count |
| App.RoleCheck | app.py:62-70 | The check exists exactly when the first named role in ranking order has a non-empty name. A first named role with an empty name suppresses the check. It carries the desired role and the predicted role, and reports a match exactly when the two are equal |
| App.RoleCheckOfRanking | app.py:62-70 | Over any taxonomy ranking: the desired role is the top named role, the score is its hit count, and the check reports a match exactly when that role is ranked first with a hit |
| App.RoleCheckOfRecord | app.py:62-70 | For a parsed resume: the desired role is the top named role, the score is its hit count, and the check reports a match exactly when that role is ranked first with a hit |
| App.CheckRole | app.py:62-70 | The page's steps build exactly that check |
| App.DownloadFileName | app.py:123 | The file name is the parsed name with each space turned into '_' and every other character kept, followed by "_parsed.json". No space remains |
| App.IsBlank | app.py:51 | A description is blank when stripping it leaves nothing |
| App.ParsedEntry.constructor | app.py:48-49 | A new entry holds the record and the file name, and no job-description entries |
| App.ParsedEntry.ScoreJobDescription | app.py:52-53 | Sets the job-description score of the entry's skills and leaves the role check alone |
| App.ParsedEntry.CheckDesiredRole | app.py:56-70 | Sets the role check when there is one and leaves the score alone |
| App.ParsedEntry.ApplyJobDescription | app.py:51-70 | A blank description changes nothing. Otherwise the entry gets the score and, when a role is named, the role check |
| App.ProcessUpload | app.py:48-70 | One uploaded file yields a fresh entry with the parsed record, the file name, and the job-description entries exactly when the description is not blank |

## Left out

- Opening the PDF and extracting page text (`pdfplumber`) are not modelled: the pages arrive as a parameter, each either its text or `None`. `page.extract_text()` is called twice per page and is taken to return the same text both times.
- Loading spaCy (lines 10-14 of resume_parser.py) is left out; nothing else in the file uses it.
- Unicode is left out: characters are read as ASCII, so Python's Unicode tables are not modelled. Those tables decide `\w`, `\s`, `\b`, `str.isspace`, `str.isupper`, `lower`/`upper` and case-insensitive matching.
- Regular expressions are modelled only for the four patterns used. Each pattern is a hand-written matcher, and the behaviour of Python's general regex engine is not modelled.
- JdMatch.ScoreAgainstJd: the score is the exact fraction `100 * matched / keywords`. Python's float division and `round(..., 2)` are not modelled.
- JdMatch.ScoreAgainstJd: "Matched Skills" and "Missing Skills" are modelled as sets. The source's lists follow the hash-dependent iteration order of a set.
- Skills.ExtractSkills: the skills are a set. The source's `list(set(...))` has a hash-dependent order.
- The fixed education, achievement and project texts are reproduced as constants (`ResumeParser.Education`, `ResumeParser.Achievements`, `ResumeParser.Projects`), and nothing is proved about them. The source's functions ignore their `text` argument.
- The Streamlit page is left out: layout, styling, widgets, the bar and pie charts, the top-3 slice, the expander and the success/warning messages. It displays data and computes nothing the model needs.
- The temporary file is left out. It only passes the upload to the PDF library.
- The JSON text of the download (`json.dumps`) is left out; only its file name is modelled.
- The loop over several uploaded files is left out. Iterations share only the job description, so `App.ProcessUpload` models one iteration.
- The `__main__` test run is left out. It reads a fixed file and prints JSON.
