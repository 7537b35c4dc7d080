# Resume parser and job matcher, modelled in Dafny

This project models the engine of the resume builder:

- the plain-text resume parser in `src/lib/parser.ts`, which turns extracted text into a `ResumeJson` record;
- the job matcher in `src/lib/matcher.ts`, which scores the resume's experience bullets and skills against a job description.

The parser works in stages, modelled one module each:

- `Parser.Normalise` (`normaliseText`), then the split into trimmed non-empty lines.
- `Contact`: name, e-mail, phone, location and de-duplicated links, all taken from the first eight lines.
- `Sections`: a single left-to-right pass. It files every line under the section current at that point. The current section changes at each line that `detectHeading` recognises.
- `Entries`: the bullet stripper, the year and date-range recognisers, and the experience and education accumulators. Both accumulators group bullet lines under the most recent heading line.
- `Parser`: skill tokenising and the top-level `parseResumeText`, which assembles the record and filters the extras.

The matcher (`Matcher`) works in these steps:

- It tokenises the job description.
- It flattens the experience bullets with their source tags.
- It keeps the skills whose lower-case form is a job token.
- It scores every bullet by token overlap.
- It drops zero scores, sorts stably by descending score and keeps the first twelve.
- It combines bullet and skill matches into a percentage.

## How the source is modelled

Where the source mutates local state in a loop, the model is a `method` with a loop. This covers `splitIntoSections`, `extractExperience`, `extractEducation`, the link set of `extractContact`, `extractExtras`, `collectBullets` and `computeOverlap`. Each method's `ensures` ties its result to a specification function. The properties are then proved about that function.

The expression pipelines are functions:

- `normaliseText`, `detectHeading`, `extractSkills`, `inferName`, `inferLocation`, `parseExperienceHeading`, `stripBullet` and `extractYear`;
- `tokenize`, `matchSkills` and `computeMatchScore`.

`matchJobDescription` and `parseResumeText` are methods because they call the methods above. The `.map` that scores every bullet is the loop of `Matcher.ScoreBullets`, which calls `ComputeOverlap` once per bullet.

Some regular expressions are simple enough to model at the character level:

- the heading equality;
- the two bullet markers;
- `\b(19|20)\d{2}\b`;
- the date range `(\b\d{4}\b).*(\b\d{4}\b|present)` with its greedy `.*`;
- the four-digit-year test;
- the degree pattern;
- the character classes of the tokenisers.

The loose heuristics are fields of the `Resume.Heuristics` datatype, and every property holds whatever they are. These are the e-mail, phone, URL and location patterns and the first alternative of `isNewExperienceHeading`.

Scores are exact reals. `Math.round(x)` is `(x + 0.5).Floor`.

The model follows the code in places where the code behaves differently from what one might expect:

- `detectHeading` removes every `:` and `.` in the line, not only a trailing one. So `Skills.` and `Ski:lls` are both headings.
- A heading's key is its keyword without spaces. "technical skills", "professional experience" and "work experience" therefore open the sections `technicalskills`, `professionalexperience` and `workexperience`. The parser never reads those sections, so their lines end up in `extras` rather than in `skills` or `experience`.
- The degree test `/(b\.?s\.?|m\.?s\.?|ph\.?d\.?|bachelor|master|diploma|degree)/i` has no word boundaries. Any line containing e.g. "ms" or "bs" (as in "systems" or "jobs") starts a new education entry.
- `computeOverlap(a, b)` is not symmetric. Duplicates in `b` count each time; duplicates in `a` count once. See `Matcher.OverlapIsNotSymmetric`.

## Model

| member | source | states |
|---|---|---|
| Sections.DetectHeading | src/lib/parser.ts:144-149 | a key is returned exactly when the lower-cased, trimmed line with all `:` and `.` removed equals one of the heading keywords, and the key is that cleaned line with its white space removed; it is non-empty and all `a`–`z`, so it never contains a space |
| Sections.KeywordText | src/lib/parser.ts:33-46 | every heading keyword is lower-case words separated by spaces, starting and ending with a letter |
| Sections.KeyOfKeywordText | src/lib/parser.ts:147 | removing the spaces from such a keyword leaves a non-empty run of letters `a`–`z` |
| Sections.RemoveSpaces | src/lib/parser.ts:147 | `replace(/\s+/g, "")` leaves no white space |
| Sections.DetectHeadingOfKeyword | src/lib/parser.ts:144-149 | every heading keyword on its own is recognised as a heading, with the keyword minus its spaces as the key |
| Sections.DetectHeadingOfPunctuatedKeyword | src/lib/parser.ts:144-149 | every heading keyword followed by `:` or `.` is recognised as a heading, with the same key as the bare keyword |
| Sections.DetectHeadingOfWord | src/lib/parser.ts:144-149 | a one-word heading keyword such as `skills` is its own key |
| Sections.CleanOfClean | src/lib/parser.ts:145 | a trimmed line of lower-case letters and spaces is unchanged by the heading clean-up |
| Sections.CleanOfColon | src/lib/parser.ts:145 | a trailing `:` or `.` is removed by the heading clean-up |
| Sections.Routed | src/lib/parser.ts:130-139 | every line filed in a body is a non-heading line of the input |
| Sections.RoutedInOrder | src/lib/parser.ts:130-139 | the filed lines are exactly the non-heading lines, each once, in source order |
| Sections.RoutedKeyIsCurrent | src/lib/parser.ts:130-139 | a non-heading line is filed under the key current when it is read: the last heading before it, or "header" |
| Sections.CurrentKeyIsKey | src/lib/parser.ts:127-134 | the current key is always "header" or the key of a heading already read, so it is a key of the record |
| Sections.EmptyBodyOfNewKey | src/lib/parser.ts:132-138 | a key that has never been current has an empty body |
| Sections.SectionsOfSnocHeading | src/lib/parser.ts:131-135 | reading a heading adds its key with an empty body, or keeps the existing body when the key is already present |
| Sections.SectionsOfSnocBody | src/lib/parser.ts:137-138 | reading any other line appends it to the current section's body and changes nothing else |
| Sections.SplitIntoSections | src/lib/parser.ts:125-142 | the loop builds exactly the record of the specification; "header" is always a key; no body holds a heading line |
| Sections.SectionBodiesHaveNoHeading | src/lib/parser.ts:130-139 | no line that `detectHeading` recognises is ever in a body |
| Sections.ExtractExtras | src/lib/parser.ts:260-269 | the extras have none of the keys header, summary, skills, experience, education; every kept value is non-empty and equal to the section body; every other non-empty section is kept |
| Contact.Urls | src/lib/parser.ts:92-95 | every URL match of every line is collected, and only those |
| Contact.AddAll | src/lib/parser.ts:94 | adding the matches to the insertion-ordered set gives the de-duplicated sequence of everything seen so far |
| Contact.InferName | src/lib/parser.ts:106-112 | the name is trimmed; it is "" when there is no first line, the first line is empty, or it matches the e-mail or phone pattern; otherwise it is the first line without its URLs, trimmed |
| Contact.NameIsNotContactDetail | src/lib/parser.ts:106-112 | a first line with an e-mail address or a phone number never becomes the name |
| Contact.InferLocation | src/lib/parser.ts:114-123 | with no line that passes the location test while being neither an e-mail nor a phone line the location is ""; otherwise it is the first line in order that does |
| Contact.PhoneOf | src/lib/parser.ts:89-90 | the phone is the phone match inside the first line that has one; with no such line it is the match of `""`, which is `""` whenever the phone pattern, like `phoneRegex`, needs at least one character |
| Contact.ContactOf | src/lib/parser.ts:86-104 | the links have no duplicates and are exactly the URL matches of the header lines; the e-mail is "" or an e-mail line of the header, and whenever the header has one it is the first e-mail line; name, phone and location are the inferred ones |
| Contact.ExtractContact | src/lib/parser.ts:86-104 | the contact record is the one computed from the first eight lines alone |
| Entries.MarkerLength | src/lib/parser.ts:48 | a marker is found only at a line starting with `-`, `•`, `*` or a digit; the marker with its white space is never followed by more white space |
| Entries.StripBullet | src/lib/parser.ts:212-219 | the result is trimmed and no longer than the line |
| Entries.StripBulletWithoutMarker | src/lib/parser.ts:212-219 | a line that neither `^[-•*]\s+` nor `^\d+\.\s+` matches is only trimmed, including lines that start with `-`, `•`, `*` or a digit without a marker, such as "2015 - 2019" or "3.5 GPA" |
| Entries.StripOneSymbolMarker | src/lib/parser.ts:213-216 | a symbol marker and its white space are removed, and only that one marker |
| Entries.StripOneNumberMarker | src/lib/parser.ts:213-216 | a `digits.` marker and its white space are removed, and only that one marker |
| Entries.FirstCenturyYear | src/lib/parser.ts:256 | the search finds the leftmost position of a word-bounded four-digit year starting with 19 or 20, or reports that there is none |
| Entries.ExtractYear | src/lib/parser.ts:255-258 | the year is "" or four digits starting with "19" or "20"; it is non-empty exactly when the line holds such a year, and then it is the leftmost one |
| Entries.LastWhere | src/lib/parser.ts:197 | backtracking from the end finds the largest position in range where the test holds, or reports that it holds nowhere |
| Entries.LastRangeEnd | src/lib/parser.ts:197 | the end of a range lies after its first year and within the line |
| Entries.LastRangeEndIsLast | src/lib/parser.ts:197 | the greedy `.*` picks the last closer it can reach without crossing a line terminator; with none reachable there is no match from that year |
| Entries.DateMatchFrom | src/lib/parser.ts:197 | the match starts at the leftmost position from which a range can start (a word-bounded four-digit number with a reachable closer) and ends where the greedy `.*` puts its last closer; when there is none, no position starts one |
| Entries.DateMatch | src/lib/parser.ts:197 | the date match is the leftmost-greedy match: it is present exactly when a range starts somewhere, and it is the slice of the line between that start and its last reachable closer; it is longer than four characters and starts with four digits |
| Entries.DateParts | src/lib/parser.ts:198 | the date pieces are trimmed and hold no dash; with no date match, start and end are "" |
| Entries.NoDates | src/lib/parser.ts:200 | the line with the date match removed is trimmed; with no date match it is the line trimmed |
| Entries.HeadingParts | src/lib/parser.ts:201 | the heading parts are non-empty, trimmed and hold none of `-`, `–`, `@`, `•` |
| Entries.ParseExperienceHeading | src/lib/parser.ts:196-210 | the entry has no bullets; company, title, start and end are trimmed; company and title hold none of `-`, `–`, `@`, `•`; start and end hold no dash; without a date match, start and end are ""; a missing company means a missing title, and so does a heading with fewer than two parts |
| Entries.HeadingPartsOfPair | src/lib/parser.ts:201 | "company - title" splits into exactly the company and the title |
| Entries.DatePartsOfRange | src/lib/parser.ts:198 | "start - end" splits into exactly the two years |
| Entries.DateMatchOfRangeHeading | src/lib/parser.ts:197 | in "company - title start - end" with digit-free company and title, the date match is exactly "start - end" |
| Entries.NoDatesOfRangeHeading | src/lib/parser.ts:200 | removing that match and trimming leaves exactly "company - title" |
| Entries.ParseRangeHeading | src/lib/parser.ts:196-210 | round trip: "company - title start - end", written from non-empty, trimmed company and title without digits or `-`, `–`, `@`, `•` and two four-digit years, parses back to exactly that company, title, start and end |
| Entries.HeadingKeepsWellformed | src/lib/parser.ts:169-173 | a heading line closes the current entry and opens one with that heading, keeping the accumulator invariant |
| Entries.BulletKeepsWellformed | src/lib/parser.ts:175-185 | a non-empty bullet goes to the current entry, or to a new entry without a heading, keeping the accumulator invariant |
| Entries.StepKeepsWellformed | src/lib/parser.ts:168-186 | one line keeps the accumulator invariant: only the first entry may lack a heading, and every stored bullet is non-empty |
| Entries.Fold | src/lib/parser.ts:165-186 | the accumulator after any prefix of lines is well formed and holds at most as many entries as lines |
| Entries.Blocks | src/lib/parser.ts:162-190 | there are at most as many entries as lines; only the first entry may lack a heading; every bullet is non-empty |
| Entries.BulletLines | src/lib/parser.ts:175-176 | the reference list of bullets: each is non-empty and trimmed |
| Entries.BlocksKeepBullets | src/lib/parser.ts:168-188 | all entries' bullets, concatenated, are the non-heading lines after `stripBullet` with empty results dropped, in source order |
| Entries.BlocksKeepHeadings | src/lib/parser.ts:168-188 | the headings of the entries are exactly the heading lines, in source order |
| Entries.IsNewExperienceHeading | src/lib/parser.ts:192-194 | a line the named-range pattern accepts is always a heading; otherwise it is a heading exactly when it holds a word-bounded four-digit number and does not start with `•` |
| Entries.ToExperience | src/lib/parser.ts:169-184 | an experience entry keeps its group's bullets; with a heading line it is exactly that line's parsed heading with those bullets; without one, company, title, start and end are "" |
| Entries.ExperienceOf | src/lib/parser.ts:162-190 | no more experience entries than lines; every bullet is non-empty; company and title are trimmed |
| Entries.ExperienceKeepsBullets | src/lib/parser.ts:162-190 | the experience entries' bullets, concatenated, are the stripped non-heading lines in source order |
| Entries.ExperienceStep | src/lib/parser.ts:168-186 | one line of the `forEach` moves the entries and the current entry exactly as the accumulator does |
| Entries.ExtractExperience | src/lib/parser.ts:162-190 | the loop returns the specified entries; an absent or empty section gives [] |
| Entries.DegreeLineIgnoringCase | src/lib/parser.ts:228 | a line is a degree line exactly when, ignoring case, one of `bs`, `b.s`, `ms`, `m.s`, `phd`, `ph.d`, `bachelor`, `master`, `diploma`, `degree` occurs in it at some position (every match of the pattern starts with one of these) |
| Entries.DegreeLineOfWord | src/lib/parser.ts:228 | any line containing a degree word, in any case and with any text around it, is a degree line |
| Entries.ToEducation | src/lib/parser.ts:228-246 | an education entry keeps its group's bullets, has institution equal to degree, and has the year of its degree line |
| Entries.EducationOf | src/lib/parser.ts:221-253 | no more education entries than lines; every bullet is non-empty; institution equals degree and year is `extractYear(degree)`; every entry after the first starts at a degree line |
| Entries.EducationKeepsBullets | src/lib/parser.ts:221-253 | the education entries' bullets, concatenated, are the stripped non-degree lines in source order |
| Entries.EducationStep | src/lib/parser.ts:227-249 | one line of the `forEach` moves the entries and the current entry exactly as the accumulator does |
| Entries.ExtractEducation | src/lib/parser.ts:221-253 | the loop returns the specified entries; an absent or empty section gives [] |
| Parser.Untab | src/lib/parser.ts:80-81 | tabs become spaces and carriage returns become newlines, position by position, so neither is left |
| Parser.CollapseNewlines | src/lib/parser.ts:82 | no run of three newlines is left; the result is no longer than its input, empty only for empty input, starts with the same character and holds only characters of the input |
| Parser.CollapseLeading | src/lib/parser.ts:82 | a leading run of n newlines becomes two newlines when n is three or more and stays as it is otherwise; the rest is collapsed on its own |
| Parser.CollapseAppend | src/lib/parser.ts:82 | text cut after a character other than a newline collapses piece by piece |
| Parser.CollapseLeadingRun | src/lib/parser.ts:82 | k newlines in front of text not starting with a newline become two when k is at least three and stay k otherwise |
| Parser.CollapseRunBetween | src/lib/parser.ts:82 | every maximal run of k newlines becomes exactly two newlines when k is at least three and is kept when shorter, and the text on both sides is collapsed on its own |
| Parser.CollapseKeepsText | src/lib/parser.ts:82 | collapsing only ever drops newlines: with newlines filtered out, the result and the input are the same text |
| Parser.CollapseOfCollapsed | src/lib/parser.ts:82 | text without three newlines in a row is unchanged |
| Parser.Normalise | src/lib/parser.ts:77-84 | the normalised text is trimmed, has no tab or carriage return and no three newlines in a row; with white space filtered out it is exactly the input text, so only white space is ever changed |
| Parser.NormaliseKeepsLines | src/lib/parser.ts:77-84 | the trimmed non-empty lines of the normalised text are exactly those of the input with tabs and carriage returns replaced: collapsing and trimming never join, split, drop or change a line |
| Parser.NormaliseOfBlankLines | src/lib/parser.ts:77-84 | two trimmed one-line paragraphs separated by k newlines normalise to the same paragraphs separated by two newlines when k is at least three, and by the k newlines otherwise |
| Parser.UntabKeepsText | src/lib/parser.ts:80-81 | replacing tabs and carriage returns leaves the non-white-space text unchanged |
| Parser.TrimKeepsText | src/lib/parser.ts:83 | trimming removes white space only |
| Parser.NormaliseIdempotent | src/lib/parser.ts:77-84 | normalising twice is the same as normalising once |
| Parser.Lines | src/lib/parser.ts:56 | every line is non-empty, trimmed, holds no newline, and is made of characters of the text |
| Parser.LinesAppend | src/lib/parser.ts:56 | the lines of two texts joined by a newline are the lines of the first followed by those of the second |
| Parser.LinesAroundNewlines | src/lib/parser.ts:56 | any run of one or more newlines separates lines the same way: blank lines are dropped |
| Parser.LinesOfCollapse | src/lib/parser.ts:82 | collapsing newline runs leaves the lines unchanged |
| Parser.LinesOfTrim | src/lib/parser.ts:83 | trimming the whole text leaves the lines unchanged |
| Parser.LinesOfJoin | src/lib/parser.ts:56 | round trip: non-empty trimmed lines without newlines, joined with newlines, split back into exactly those lines |
| Parser.ExtractSkills | src/lib/parser.ts:151-160 | no lines give no skills; every skill is non-empty and made of `[a-z0-9.+# ]` only |
| Parser.SkillsOfList | src/lib/parser.ts:151-160 | a one-line list `A, B, C` of trimmed skills of two or more characters from `[A-Za-z0-9.+# ]` is read back as exactly those skills, lower-cased, in order (e.g. "Python, Go, Rust" gives python, go, rust) |
| Parser.Lookup | src/lib/parser.ts:61-64 | a section is found exactly when its key is in the record |
| Parser.ParseResumeText | src/lib/parser.ts:54-75 | contact comes from the first eight lines; summary, skills, experience and education come from their sections; extras hold no parsed key and every non-empty other section; no heading line appears in extras |
| Matcher.Blank | src/lib/matcher.ts:93 | every character outside `[a-z0-9+.# ]` becomes a space, position by position |
| Matcher.SplitRuns | src/lib/matcher.ts:94 | the pieces hold no white space and only characters of the text, and each is a piece of the split at single white-space characters |
| Matcher.Tokenize | src/lib/matcher.ts:90-97 | every token has at least two characters, all from `[a-z0-9+.#]` |
| Matcher.TokenizeWithoutTokenChars | src/lib/matcher.ts:90-97 | empty text, blank text and text of punctuation only give no tokens |
| Matcher.TokenizeJoin | src/lib/matcher.ts:90-97 | tokens joined with single spaces are read back as exactly those tokens |
| Matcher.EntryPayloads | src/lib/matcher.ts:52-62 | one payload per bullet of the entry, in bullet order: its original text is the bullet, its tokens are the bullet's tokens, and its source is the experience section with the entry's company and title |
| Matcher.PushBullets | src/lib/matcher.ts:52-62 | the inner loop appends the entry's payloads |
| Matcher.CollectBullets | src/lib/matcher.ts:49-65 | the nested loops build exactly the specified payload list |
| Matcher.CollectedCount | src/lib/matcher.ts:49-65 | the payload length is the total number of bullets |
| Matcher.CollectedSnoc | src/lib/matcher.ts:49-65 | entry order: the payloads of one more entry come after those of all the entries before it |
| Matcher.MatchSkills | src/lib/matcher.ts:67-70 | the result is a subsequence of the resume skills in their order, holds every skill whose lower-case form is a job token and no other, and keeps each such skill exactly as many times as the resume lists it |
| Matcher.PayloadOf | src/lib/matcher.ts:53-61 | a payload keeps the bullet as its original text, holds the tokens of that text, and is tagged with the experience section and the entry's company and title |
| Matcher.Hits | src/lib/matcher.ts:84-86 | the hit count is at most the length of the second list, and positive exactly when one of its tokens is in the first |
| Matcher.Overlap | src/lib/matcher.ts:80-88 | the overlap is 0 when either list is empty, always in [0, 1], and positive exactly when a token of the second list is in the first |
| Matcher.ComputeOverlap | src/lib/matcher.ts:80-88 | the counting loop returns exactly the specified overlap |
| Matcher.OverlapIsNotSymmetric | src/lib/matcher.ts:84-87 | overlap([t], [t, t]) is 1 but overlap([t, t], [t]) is 0.5 |
| Matcher.ScoreOf | src/lib/matcher.ts:31-35 | a scored bullet has the payload's text and source, and its score is the overlap of the payload's tokens with the job tokens: in [0, 1], and positive exactly when a job token is among the payload's tokens |
| Matcher.Scored | src/lib/matcher.ts:31-35 | one scored bullet per payload, in payload order, with the payload's original text and source and the overlap of its tokens with the job tokens as score; every score is in [0, 1] and positive exactly when a job token is among the bullet's tokens |
| Matcher.ScoreBullets | src/lib/matcher.ts:30-35 | the scoring loop returns exactly the specified scored bullets |
| Matcher.InsertPermutes | src/lib/matcher.ts:37 | inserting adds exactly the inserted bullet |
| Matcher.InsertSorted | src/lib/matcher.ts:37 | inserting into a list of non-increasing scores keeps it non-increasing |
| Matcher.SortByScore | src/lib/matcher.ts:37 | the sort is a permutation of its input |
| Matcher.SortByScoreSorts | src/lib/matcher.ts:37 | the sort gives non-increasing scores and a permutation of its input |
| Matcher.InsertStable | src/lib/matcher.ts:37 | among bullets of one score, the inserted one goes after those already there, whose order is kept |
| Matcher.SortStable | src/lib/matcher.ts:37 | the sort is stable: for every score, the bullets with that score keep their input order |
| Matcher.Ranking | src/lib/matcher.ts:30-38 | the ranking holds all positive-score bullets when there are fewer than twelve of them, and exactly twelve otherwise |
| Matcher.RankingSorted | src/lib/matcher.ts:30-38 | at most twelve ranked bullets, in non-increasing score |
| Matcher.RankingMembers | src/lib/matcher.ts:30-38 | every ranked bullet is a scored bullet with a score in (0, 1], and no bullet is ranked more often than it was scored |
| Matcher.RankingStable | src/lib/matcher.ts:30-38 | for every score, the ranked bullets with that score are a prefix of the scored bullets with that score, in collection order |
| Matcher.RankingTop | src/lib/matcher.ts:30-38 | no positive bullet left out of the ranking scores higher than a ranked one |
| Matcher.Sum | src/lib/matcher.ts:74 | the sum of scores in [0, 1] is between 0 and the number of bullets |
| Matcher.Round | src/lib/matcher.ts:77 | rounding gives the integer within one half, halves rounded up |
| Matcher.ComputeMatchScore | src/lib/matcher.ts:72-78 | the score is at most 100, and 0 with no bullets and no skill matches |
| Matcher.MatchScoreNonNegative | src/lib/matcher.ts:72-78 | with no negative bullet score the score is at least 0 |
| Matcher.PerfectMatchScore | src/lib/matcher.ts:72-78 | full-score bullets and every skill matched give exactly 100 |
| Matcher.MatchJobDescription | src/lib/matcher.ts:25-47 | the result is the specified ranking, skill matches and score; at most twelve bullets, scores in (0, 1] and non-increasing; score in [0, 100]; a job description without tokens gives no bullets, no skills and 0 |

## Left out

- The e-mail, phone, URL, location and "Word Word - Word" heading patterns are not interpreted. They are `Resume.Heuristics` parameters, and the model states nothing about which lines they accept.
- Contact.PhoneOf: the phone is "" when no header line has a phone match only under `Resume.PhoneNeedsText`, the condition that the phone pattern does not match the empty text. `phoneRegex` needs at least ten characters, so it meets that condition, but the pattern itself is a parameter.
- Case mapping is ASCII only. `toLowerCase` maps some non-ASCII characters to ASCII letters, for example the Kelvin sign to `k` and `İ` to `i` plus a combining dot. Those mappings are not modelled in `detectHeading`, `extractSkills`, `matchSkills` or `tokenize`.
- Strings are sequences of Unicode scalar values, not UTF-16 code units. A character outside the Basic Multilingual Plane counts as one character here and as two in the source.
- The first replacement in `normaliseText` maps `•` to `•`, which is the same character. It is omitted because it changes nothing.
- The key order of the `sections` and `extras` records is not modelled. They are Dafny maps, and the JSON property order of the output is not represented.
- Scores are exact reals, not IEEE-754 doubles. Rounding error in the overlap quotient, the mean and the 0.7/0.3 weighting is not modelled.
- `Matcher.Source` has plain `company` and `title` fields, because `collectBullets` always sets the optional fields of the source's `source` object.
- The `/\r?\n/` line split is modelled as a split at `\n`, because normalisation has already replaced every `\r`.
- Entries.ParseExperienceHeading: `line.replace(dateMatch[0], "")` removes the first occurrence of the matched text, which is `Strings.ReplaceFirst` in the function. That occurrence can come before the regex match when the earlier copy's four digits are not at a word boundary, so the round trip `Entries.ParseRangeHeading` is stated for company and title without digits only.
- The React components, the backend session calls, PDF and DOCX text extraction, and the keyword extraction in the job-description input are not part of this model.
