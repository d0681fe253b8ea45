# Resume extraction and ranking, modelled in Dafny

This project models the text-processing core of a resume screening tool. That core is:

- a text cleaner;
- a line-based section segmenter;
- rule-based field extractors for name, e-mail, phone, skills, profile links, education and projects, plus a simpler parser;
- a dictionary skill extractor with a word-window context scanner;
- a job-description skill extractor with trigger-phrase capture and cleaning;
- an experience-section locator with a date-range matcher;
- two score-and-rank routines: the PDF pipeline with percentages and 0.5/0.5 weights, and the CSV job matcher with fractions and 0.7/0.3 weights.

Every fixed regular expression of the source is written out as a matcher that tries one start index. The matcher follows Python's greedy, first-alternative-wins backtracking order. Two generic combinators turn it into a search:

- `Text.Leftmost` is `re.search`.
- `Text.FindAll` is `re.findall`.

The regex `\b` is one predicate, `Text.IsBoundary`, and every whole-word matcher uses it.

What the source gets from foreign libraries comes in as parameters:

- the spaCy noun phrases, sentences and entities;
- the scikit-learn cosine similarity, as `Option<UnitReal>`, where `None` means the vectoriser raised;
- the lines of the skills file.

Scores are exact reals. Each ranking is a stable insertion sort on descending final score. The ranking is proved to be:

- a permutation of the scored input;
- non-increasing in final score;
- stable: for every score value, entries keep their input order;
- numbered 1..N.

Modules follow the source files: `TextPreprocessing`, `SectionSegmenter`, `EntityExtractor`, `ResumeParser`, `SkillExtractor`, `JobSkills`, `ExperienceExtractor`, `RankingPipeline` and `JobMatcher`. Shared modules hold the rest:

- `Text`: characters, `strip`, `split`, `join`, `lower`, substring and whole-word search, and the two search combinators.
- `Collections`: filter, map, dedup, flatten.
- `Overlap`: the overlap ratio of two skill lists.
- `StableSort` and `Ranking`.
- `StringOrder`: Python's `sorted` on strings.
- `Wrappers`: `Option`.

Some behaviour of the code is worth knowing before reading the contracts:

- **Section detection.** A line is a header when its stripped, lowered form *starts with* a listed header as a whole word. Lines before the first header go under `unknown`, so text without a header gives `{"unknown": text.strip()}`.
- **The cleaner is not idempotent.** `"a $ b"` becomes `"a  b"`, and only a second pass collapses that to `"a b"`. `TextPreprocessing.CleanPlainWords` shows the inputs that come back unchanged.
- **Experience.** The section is the suffix from the first experience keyword. The date ranges are the `re.findall` groups of one month-to-year pattern. The highlights are the long sentences of the section.
- **The skill vocabulary.** `_load_skills` keeps duplicate lines, and so does the model.
- **Four skill matchers.** Each is kept as written: whole-word, substring, list-order substring, and the trigger-phrase pipeline.

## Model

| member | source | states |
|---|---|---|
| TextPreprocessing.CleanText | text_preprocessing.py:3-19 | the cleaned text has no whitespace at either end, and every character is an ASCII word character, a space or keep-list punctuation (so no `!`, `?`, tab or newline) |
| TextPreprocessing.CleanTextFixed | text_preprocessing.py:3-19 | trimmed text of word characters, single spaces and keep-list punctuation, with no space in front of a mark and a space after every mark that is not last, comes back unchanged: the two spacing passes touch nothing else |
| TextPreprocessing.CleanTextSolid | text_preprocessing.py:3-19 | the non-whitespace characters of the result are exactly the input's printable ASCII word and keep-list characters, in their original order: cleaning only deletes characters and moves, merges or adds spaces |
| TextPreprocessing.CleanPlainWords | text_preprocessing.py:3-19 | text of ASCII word characters and single spaces, with no whitespace at either end, comes back unchanged |
| TextPreprocessing.FilteredChars | text_preprocessing.py:5-13 | after the whitespace collapse and the three character filters, only word characters, spaces and keep-list punctuation remain |
| TextPreprocessing.FilterStepsSolid | text_preprocessing.py:8-13 | the ASCII, printable and keep-list filters together keep exactly the characters of one combined class |
| TextPreprocessing.BulletsAlreadyGone | text_preprocessing.py:8-12 | the bullet substitution never changes anything, because the ASCII filter already removed both bullet characters |
| TextPreprocessing.DeleteRunsBefore | text_preprocessing.py:16 | the result is no longer than the input, and no character of the deleted class directly precedes a mark; the first character is a mark iff the input's first character after the leading run is |
| TextPreprocessing.DeleteRunsSolid | text_preprocessing.py:16 | deleting runs removes only whitespace: the other characters keep their order |
| TextPreprocessing.DeleteRunsKeeps | text_preprocessing.py:16 | deleting runs adds no character |
| TextPreprocessing.DeleteRunsAppend | text_preprocessing.py:16 | cutting the text after a non-whitespace character and cleaning the two parts separately gives the same result: no deleted run spans such a cut |
| TextPreprocessing.DeleteRunsMark | text_preprocessing.py:16 | a non-empty whitespace run followed by a mark becomes the mark alone |
| TextPreprocessing.DeleteRunsNone | text_preprocessing.py:16 | text with no whitespace directly in front of a mark is left unchanged, so whitespace elsewhere survives |
| TextPreprocessing.Tighten | text_preprocessing.py:16 | after this pass no whitespace directly precedes `. , : ; ! ? ( )` |
| TextPreprocessing.SpaceAfter | text_preprocessing.py:17 | inserting spaces never shortens the text and keeps its first character |
| TextPreprocessing.SpaceAfterAppend | text_preprocessing.py:17 | cutting the text after a character that is not a mark and spacing the two parts separately gives the same result: no match spans such a cut |
| TextPreprocessing.SpaceAfterMark | text_preprocessing.py:17 | a mark followed by a non-whitespace character gets one space between them, and both are consumed before the scan goes on |
| TextPreprocessing.SpaceAfterNone | text_preprocessing.py:17 | text where every mark with a successor is followed by whitespace is left unchanged, so no space is inserted except right after a mark |
| TextPreprocessing.SpaceAfterSolid | text_preprocessing.py:17 | inserting spaces changes nothing but the whitespace |
| TextPreprocessing.SpaceAfterKeeps | text_preprocessing.py:17 | inserting spaces adds no character other than the space |
| TextPreprocessing.SpaceAfterSeparates | text_preprocessing.py:17 | when no two marks are adjacent, every mark with a successor is followed by whitespace |
| TextPreprocessing.SpacingSkipsSecondMark | text_preprocessing.py:17 | `".,x"` becomes `". ,x"`: the `,` is consumed as the second group of the first match and gets no space of its own |
| Text.CollapseSpaces | text_preprocessing.py:5 | no two whitespace characters of the result are adjacent; every non-whitespace character of the result occurs in the input; a leading whitespace run becomes one `' '` |
| TextPreprocessing.CollapseSolid | text_preprocessing.py:5 | the non-whitespace characters of the result are exactly the input's, in the same order |
| Text.CollapseIsSpacedWords | text_preprocessing.py:5 | the result is the words of `str.split()` joined by single spaces, with one space in front when the input starts with whitespace and one at the end when it ends with it: each whitespace run becomes one `' '` |
| Text.CollapseSingleSpaces | text_preprocessing.py:5 | text whose only whitespace is single spaces is left alone |
| Text.Strip | text_preprocessing.py:19 | `str.strip()`: the result is the slice between the leading and trailing whitespace runs, and it has no whitespace at either end |
| Text.Split | section_segmenter.py:19 | `str.split(sep)`: at least one piece, no piece holds the separator, and joining the pieces with it gives the input back |
| Text.SplitJoin | job_skills_extractor.py:95 | splitting the comma-join of comma-free pieces gives the pieces back |
| Text.Words | skill_extractor.py:77 | `str.split()`: every word is non-empty and holds no whitespace |
| Text.FindWordFrom | skill_extractor.py:28 | the first whole-word occurrence (`\b` on both sides) at or after a start, or none when there is none |
| Text.Leftmost | entity_extractor.py:15 | `re.search`: the leftmost index where the matcher succeeds, no success before it, and none at all when it returns `None` |
| Text.FindAll | experience_extractor.py:20 | `re.findall`: every reported match is one, each starts at or after the end of the previous one, and no match starts before the first, between two, or after the last reported one; there is none exactly when the pattern matches nowhere |
| Text.FindAllCovers | experience_extractor.py:20 | every index where the pattern matches lies inside some reported match |
| SectionSegmenter.FirstHeaderIn | section_segmenter.py:24-31 | the first header in list order that starts the line as a whole word; none means no header does |
| SectionSegmenter.HeaderOf | section_segmenter.py:21-31 | a header line opens one of the listed headers, never `unknown` |
| SectionSegmenter.SegmentIsAssemble | section_segmenter.py:14-39 | the loop and the final flush equal writing the line blocks, in order, into an empty map |
| SectionSegmenter.RunAssembles | section_segmenter.py:20-37 | from any state, the loop computes the block description of the remaining lines |
| SectionSegmenter.BlocksCover | section_segmenter.py:20-33 | header lines are dropped, and the block bodies together are exactly the other lines, in order, as written |
| SectionSegmenter.AssembleKeys | section_segmenter.py:27-37 | after the writes, a name is a key iff it was one before or some block of that name has at least one line |
| SectionSegmenter.AssembleLast | section_segmenter.py:27-37 | a name's value is its last block with lines, joined with `'\n'` and stripped |
| SectionSegmenter.SectionKeys | section_segmenter.py:3-16 | every key of the result is a listed header or `unknown` |
| SectionSegmenter.UnknownSection | section_segmenter.py:16-37 | `unknown` is a key iff the first line is not a header; its value is then the lines before the first header, joined and stripped |
| SectionSegmenter.NoHeaderOneSection | section_segmenter.py:14-39 | text with no header line yields exactly `{"unknown": strip(text)}` |
| SectionSegmenter.LastBlockWins | section_segmenter.py:28-37 | a later header of the same name with content overwrites the earlier value |
| SectionSegmenter.EmptyBlocksNoEntry | section_segmenter.py:27-29 | a name whose every header is followed directly by another header, or by the end, gets no entry |
| EntityExtractor.LabelledName | entity_extractor.py:11-13 | a result is the name group read after the label `name` in any case, an optional `:` or `-`, and blanks |
| EntityExtractor.LabelledNameComplete | entity_extractor.py:11-13 | every reading of label, separator and blanks after which the name group matches gives exactly that group: the line has a name iff such a reading exists |
| EntityExtractor.NameGroupShape | entity_extractor.py:11 | the captured name is one letter word, or two joined by one whitespace character, and it stops at a non-letter |
| EntityExtractor.FirstSomeUpTo | entity_extractor.py:9-13 | the result of the first of the first five lines that matches, and none iff none of them does |
| EntityExtractor.WordPairAtIff | entity_extractor.py:15 | the pair matcher returns given ends iff the regex reading of `\b(F R+)\s+(F R+)\b` holds with those ends |
| EntityExtractor.PairSearchIff | entity_extractor.py:15-21 | there is no pair exactly when no position and ends satisfy the pair pattern; a found pair is the leftmost one |
| EntityExtractor.ExtractName | entity_extractor.py:8-23 | the labelled line wins, then the Title-Case pair, then the capitals pair; none iff all three fail |
| EntityExtractor.UnlabelledNameShape | entity_extractor.py:15-21 | with no labelled line, the name is two letter words joined by exactly one space |
| EntityExtractor.CapsPairShape | entity_extractor.py:19-21 | the capitals step returns two title-cased words joined by one space |
| EntityExtractor.Title | entity_extractor.py:21 | `str.title()` on one letter word: same length, the first letter upper-cased, the rest lowered |
| EntityExtractor.EmailAt | entity_extractor.py:27 | a match starts with a run of local characters up to an `@` and ends with a dot followed by at least two letters, where the letter run is not followed by another letter |
| EntityExtractor.EmailAtComplete | entity_extractor.py:27 | for any reading of the pattern at an index, the matcher succeeds there with the same `@`, a final dot no earlier and an end no earlier than that reading's |
| EntityExtractor.EmailAtLongest | entity_extractor.py:27 | the end the matcher returns is the furthest end of any reading of the pattern from that index |
| EntityExtractor.EmailAtIff | entity_extractor.py:27 | the matcher succeeds at an index iff the pattern can be read there: local run, `@`, blanks, domain run, blanks, dot, two or more letters |
| EntityExtractor.TldFromComplete | entity_extractor.py:27 | backtracking over the domain run finds a dot and two letters whenever they can follow some shorter part of the run |
| EntityExtractor.EmailFound | entity_extractor.py:26-31 | there is no address iff the pattern can be read at no index; the address found starts at the leftmost index where it can and ends at the furthest end of any reading from there |
| EntityExtractor.EmailShape | entity_extractor.py:26-31 | the address contains `@`, has no blank, starts with a local character and ends in a dot and at least two letters |
| EntityExtractor.RemoveBlanks | entity_extractor.py:30 | `replace(" ", "")` removes every blank and keeps all other characters |
| EntityExtractor.PhoneAt | entity_extractor.py:35 | a match is 10, 13 or 14 characters long and ends in ten digits, the first in 6-9; the longer forms start with `+91` and have at most one `-` or whitespace separator; ten such digits give the 10-character match, and `+91` before them, with or without one separator, gives the longer one |
| EntityExtractor.PhoneFound | entity_extractor.py:34-37 | there is a number iff some ten digits in a row start with 6-9, and the one returned is the leftmost match |
| EntityExtractor.PhoneShape | entity_extractor.py:34-37 | the number has length 10, 13 or 14, ends in ten digits with the first in 6-9, and starts with `+91` when longer |
| EntityExtractor.SkillsIn | entity_extractor.py:40-54 | a keyword is reported iff its lowered form is a substring of the lowered text |
| EntityExtractor.InnerKeyword | entity_extractor.py:50-52 | a keyword inside another keyword is found whenever the longer one is |
| EntityExtractor.JavascriptYieldsJava | entity_extractor.py:41-52 | a text yielding "javascript" also yields "java" |
| EntityExtractor.UrlAt | entity_extractor.py:58 | a match contains the host text followed by at least one handle character from `[A-Za-z0-9_-]` |
| EntityExtractor.UrlShape | entity_extractor.py:57-66 | a link has no blank and ends with the host and a handle |
| EntityExtractor.UrlAtComplete | entity_extractor.py:58 | every reading of optional scheme, optional `www.`, host and handle at an index is found, at the same host position and with a handle at least as long |
| EntityExtractor.UrlAtSound | entity_extractor.py:58 | what the matcher finds is a reading of the pattern |
| EntityExtractor.UrlFound | entity_extractor.py:57-66 | there is no link iff the pattern can be read at no index of the blank-free text, and the link found starts at the leftmost index where it can |
| EntityExtractor.GithubFound | entity_extractor.py:57-60 | there is no GitHub link iff the `github.com/` pattern can be read nowhere in the blank-free text |
| EntityExtractor.LinkedinFound | entity_extractor.py:63-66 | there is no LinkedIn link iff the `linkedin.com/in/` pattern can be read nowhere in the blank-free text |
| EntityExtractor.GithubShape | entity_extractor.py:57-60 | a GitHub link ends with `github.com/` and a handle |
| EntityExtractor.LinkedinShape | entity_extractor.py:63-66 | a LinkedIn link ends with `linkedin.com/in/` and a handle |
| EntityExtractor.FindAllCourses | entity_extractor.py:85-86 | `re.findall` for one course pattern: every reported span is a match, and there are none iff the pattern matches nowhere |
| EntityExtractor.FindAllCoursesGaps | entity_extractor.py:85-86 | no course match starts before the first, between two, or after the last reported one |
| EntityExtractor.UnitsEndText | entity_extractor.py:85-87 | with the dots removed, a match spells the pattern's letters |
| EntityExtractor.CleanCourse | entity_extractor.py:87-88 | a cleaned course name has no `.` and no lower-case letter |
| EntityExtractor.CourseMatchName | entity_extractor.py:87-88 | every match of one pattern cleans to the same course name |
| EntityExtractor.CoursesWith | entity_extractor.py:81-90 | the course set is `None` rather than empty |
| EntityExtractor.CoursesShape | entity_extractor.py:84-90 | every reported course is upper-case and has no dot |
| EntityExtractor.CoursesFound | entity_extractor.py:84-90 | the course set is `None` iff no pattern matches the lowered text, and otherwise exactly the names of the patterns that do |
| EntityExtractor.CoursesMember | entity_extractor.py:84-90 | a course is reported iff it is the name of a pattern that matches the lowered text |
| EntityExtractor.KeywordLines | entity_extractor.py:99-100 | the increasing indices of exactly the lines that contain a project keyword |
| EntityExtractor.ProjectsIn | entity_extractor.py:96-108 | one block per keyword line; there are none iff no line contains a keyword |
| EntityExtractor.ProjectEntry | entity_extractor.py:99-106 | entry `k` is the `k`-th keyword line plus at most the next two lines, stripped, the whole stripped |
| EntityExtractor.ProjectsMentionKeyword | entity_extractor.py:94-108 | every project block still contains a keyword |
| EntityExtractor.ProjectsFound | entity_extractor.py:94-108 | the result is `None` iff no line of the lowered text contains a keyword |
| EntityExtractor.ProjectsIgnoreCase | entity_extractor.py:96 | the text's case does not matter |
| ResumeParser.AddressAt | parser.py:9 | a match is a run of local characters, an `@`, and a host run of at least one character that stops only where host characters stop |
| ResumeParser.AddressAtIff | parser.py:9 | the matcher succeeds at an index iff the pattern can be read there, and every reading has the same `@` and a host no longer than the one found |
| ResumeParser.EmailFound | parser.py:8-10 | there is no address iff the pattern can be read at no index, and the address found starts at the leftmost index where it can |
| ResumeParser.EmailShape | parser.py:8-10 | the address has exactly one `@`, with at least one allowed character on each side |
| ResumeParser.PhoneTail | parser.py:13 | `[\d -]{8,m}\d`: the end is a digit after 8 to m characters of digits, blanks and hyphens; no longer such run fits, and there is none iff no length from 8 to m fits |
| ResumeParser.NumberAt | parser.py:13 | a match of `\+?\d[\d -]{8,12}\d` is 10 to 15 characters long |
| ResumeParser.PhoneShape | parser.py:12-14 | the number is 10-15 characters long, starts with `+` or a digit, ends with a digit, and has only digits, blanks and hyphens inside |
| ResumeParser.TenDigitsFound | parser.py:12-14 | ten digits in a row always yield a number |
| ResumeParser.SkillsListed | parser.py:16-19 | a list skill is reported iff its lowered form occurs in the lowered text, as written in the list |
| ResumeParser.SkillsInListOrder | parser.py:16-19 | entry `k` is the list entry at the `k`-th passing index: list order is kept |
| ResumeParser.JavascriptYieldsJava | parser.py:17-18 | substring matching: a text mentioning JavaScript yields Java |
| ResumeParser.FirstPerson | parser.py:23-27 | the text of the first PERSON entity, and none iff there is no PERSON entity |
| ResumeParser.ExtractResumeInfo | parser.py:21-33 | the name is the text of the first PERSON entity, absent iff there is none; the e-mail, phone and skills are what the three extractors return |
| SkillExtractor.LoadSkills | skill_extractor.py:18-19 | every loaded skill is non-empty, trimmed and lower-case |
| SkillExtractor.LoadSkillsLines | skill_extractor.py:18-19 | entry `k` is the `k`-th non-blank line stripped and lowered: blank lines are skipped and duplicates kept |
| SkillExtractor.LoadSkillsIdempotent | skill_extractor.py:18-19 | loading an already loaded vocabulary changes nothing |
| SkillExtractor.ExtractSkills | skill_extractor.py:42-63 | the result is strictly sorted, and a skill is in it iff it is in the vocabulary and either its pattern finds it in the lowered text or it equals a lowered noun phrase |
| SkillExtractor.PatternIgnoresCase | skill_extractor.py:28-49 | lowering the text first does not change what a pattern finds |
| SkillExtractor.ExtractSkillsSorted | skill_extractor.py:63 | the result is the only strictly sorted list of its elements |
| SkillExtractor.PatternsAlone | skill_extractor.py:45-50 | without noun phrases, a skill is reported iff it has a whole-word occurrence |
| SkillExtractor.ContextWindow | skill_extractor.py:81-83 | for `k >= 0`, the consecutive words from `max(0, i-k)` up to `min(len(words), i+k+1)`, which hold word `i`; for negative `k`, Python's slice rules, including an end counted from the back |
| SkillExtractor.EntriesInMember | skill_extractor.py:85-91 | a window yields exactly the pairs whose skill its pattern finds, with the window stripped |
| SkillExtractor.WindowGroups | skill_extractor.py:79-91 | one group of pairs per word, namely those of that word's window |
| SkillExtractor.GroupsMember | skill_extractor.py:79-91 | a pair is in the flattened groups iff it is found around some word |
| SkillExtractor.SkillsWithContext | skill_extractor.py:65-93 | a pair is reported iff its skill's pattern finds it in the window around some word, with that window as context |
| SkillExtractor.SkillsWithContextOrder | skill_extractor.py:79-91 | pairs come word by word and, within one word, in vocabulary order |
| SkillExtractor.ContextTrimmed | skill_extractor.py:83-90 | the joined window is already stripped |
| JobSkills.GroupAfter | job_skills_extractor.py:46 | `\s+([^.,:;]+)`: a result is blanks and then a non-empty group without `.,:;` that runs to a stop character or the end; there is one whenever a blank is followed by a character other than those four |
| JobSkills.CaptureWithShape | job_skills_extractor.py:46 | a capture follows one of the phrases and at least one blank, holds no `.,:;`, and ends at one or at the end of the text |
| JobSkills.FindAllCaptures | job_skills_extractor.py:46-47 | `re.findall` for the trigger pattern: every entry is a match, later matches start after earlier ones end, and no match starts before the first, between two, or after the last entry |
| JobSkills.CaptureAtIff | job_skills_extractor.py:46 | the capture matcher succeeds at an index iff the trigger pattern can be read there: a word boundary, a phrase, blanks, and a non-empty group without `.,:;` |
| JobSkills.Captures | job_skills_extractor.py:46-49 | one stripped capture per match; none iff the pattern matches nowhere |
| JobSkills.CapturesFound | job_skills_extractor.py:46-49 | there are no captures iff the trigger pattern can be read at no index |
| JobSkills.CapturesShape | job_skills_extractor.py:46-49 | no capture holds `.`, `,`, `:` or `;` |
| JobSkills.DropFirst | job_skills_extractor.py:61 | the result is a suffix of the input, and the input itself when no filler followed by whitespace starts it |
| JobSkills.Clean | job_skills_extractor.py:60-61 | a cleaned candidate is single-spaced and has no whitespace at either end |
| JobSkills.CleanChars | job_skills_extractor.py:60-61 | every non-whitespace character of a cleaned candidate comes from the candidate |
| JobSkills.CleanKeeps | job_skills_extractor.py:60-61 | a trimmed, single-spaced candidate that does not start with a filler and a blank is left unchanged |
| JobSkills.CleanDropsFiller | job_skills_extractor.py:61 | a filler, one blank and a cleaned rest lose exactly the filler and the blank |
| JobSkills.CommonSkillClean | job_skills_extractor.py:12-19 | every common technology survives cleaning unchanged |
| JobSkills.CandidateMember | job_skills_extractor.py:38-54 | the candidates are the noun phrases mentioning a common technology, the trigger captures, and the common technologies that occur in the text |
| JobSkills.ExtractWithMember | job_skills_extractor.py:56-67 | a skill is reported iff it is the cleaned form, longer than two characters, of some candidate |
| JobSkills.ExtractWithShape | job_skills_extractor.py:60-63 | every reported skill is longer than two characters, single-spaced and trimmed, so "r" never is |
| JobSkills.ExtractSkillsFromJob | job_skills_extractor.py:22-69 | the result is duplicate-free |
| Collections.Dedup | job_skills_extractor.py:66-67 | `list(Counter(xs).keys())`: duplicate-free, the same elements, in order of first occurrence |
| JobSkills.DirectSkillReported | job_skills_extractor.py:51-63 | a common technology longer than two characters that occurs in the lowered description is reported |
| JobSkills.JobSkillsNoComma | job_skills_extractor.py:45-69 | when the noun phrases hold no comma, no reported skill does |
| JobSkills.ProcessJobRows | job_skills_extractor.py:84-96 | output row `k` belongs to the `k`-th row with a non-empty description and keeps its id: rows without a description are skipped, and no others are |
| JobSkills.SkillsFieldSplits | job_skills_extractor.py:91-96 | splitting a row's `Skills` field at commas gives back the extracted list |
| ExperienceExtractor.FirstPresent | experience_extractor.py:11-12 | the first keyword in list order that occurs; none iff none occurs |
| ExperienceExtractor.SectionWith | experience_extractor.py:5-15 | the result is a suffix of the text |
| ExperienceExtractor.SectionEmptyIff | experience_extractor.py:5-15 | the section is `""` iff no keyword occurs in the lowered text |
| ExperienceExtractor.SectionStartsAtKeyword | experience_extractor.py:10-14 | the section starts at the first occurrence of the first listed keyword that occurs, as written in the text |
| ExperienceExtractor.ExperienceWins | experience_extractor.py:6-14 | when "experience" occurs, the section starts there, however early an "internship" stands |
| ExperienceExtractor.InnerKeywordsNeverChosen | experience_extractor.py:6-14 | "work experience" and "professional experience" are never the chosen keyword |
| ExperienceExtractor.SectionBegins | experience_extractor.py:11-14 | a non-empty section starts, ignoring case, with a keyword |
| ExperienceExtractor.FirstAt | experience_extractor.py:19 | the alternation commits to the first listed month that occurs at the index |
| ExperienceExtractor.PrefixShadows | experience_extractor.py:19 | an alternative listed after a prefix of itself is never committed to |
| ExperienceExtractor.TailAt | experience_extractor.py:19 | the rest of the date pattern, matched greedily, returns an end group that the group matcher accepts at the returned position |
| ExperienceExtractor.TailAtComplete | experience_extractor.py:19 | every reading of the rest of the pattern (letters, a punctuation mark, a blank, four digits, a blank, dashes, a blank, the end group) is the one the matcher returns |
| ExperienceExtractor.EndShape | experience_extractor.py:19 | the end group is "present" in any case, or four digits |
| ExperienceExtractor.RangeWithMonth | experience_extractor.py:19 | the month group is the committed month, as written at the start of the match |
| ExperienceExtractor.RangeWithEnd | experience_extractor.py:19 | the end group of a match is "present" in any case, or four digits |
| ExperienceExtractor.RangeAtAnyMonth | experience_extractor.py:19 | committing to the first listed month loses nothing: when any listed month occurs at an index, ignoring case, and the rest of the pattern matches after it, the date pattern matches there and ends where that reading ends |
| ExperienceExtractor.NeverSept | experience_extractor.py:19 | the committed month is never "sept", because "sep" is listed first |
| ExperienceExtractor.RangeShape | experience_extractor.py:19 | a match's month is a listed month other than "sept", ignoring case, that occurs at the match; its end is "present" or four digits |
| ExperienceExtractor.FindAllRanges | experience_extractor.py:18-20 | `re.findall` with the case-insensitive date pattern: matches in text order, none overlapping, and no match starts before the first, between two, or after the last one |
| ExperienceExtractor.DateRangeReported | experience_extractor.py:18-20 | every index where the date pattern matches lies inside a reported match |
| ExperienceExtractor.DateRangesShape | experience_extractor.py:18-20 | every reported pair has the shape of `RangeShape` |
| ExperienceExtractor.ExperienceDescriptions | experience_extractor.py:23-30 | every highlight is trimmed and longer than 20 characters |
| ExperienceExtractor.DescriptionsMember | experience_extractor.py:27-29 | a highlight is exactly a stripped sentence whose stripped length exceeds 20 |
| ExperienceExtractor.ExperienceResult | experience_extractor.py:33-42 | the empty record comes back iff no keyword occurs; otherwise `raw_text` is the stripped section, which is non-empty, and the highlights are those of the section |
| Overlap.OverlapCount | resume_ranking_pipeline.py:65-68 | the distinct common values number at most the second list's entries, and exactly as many iff that list is duplicate-free and contained in the first |
| Overlap.CoverageRatio | resume_job_matcher.py:42-47 | the common-value ratio is 1 iff the job list is duplicate-free and contained in the resume list |
| RankingPipeline.ExtractJobSkills | resume_ranking_pipeline.py:46-53 | a vocabulary entry is kept iff it occurs as a whole word in the lowered description, with its vocabulary multiplicity and in vocabulary order |
| RankingPipeline.SkillMatchScore | resume_ranking_pipeline.py:55-70 | the score lies in [0, 100]; it is 0 when either list is empty; it is 100 iff both lists are non-empty and the lowered job skills are duplicate-free and all among the lowered resume skills |
| RankingPipeline.SkillMatchIgnoresCase | resume_ranking_pipeline.py:61-65 | lowering either list first changes nothing |
| RankingPipeline.SemanticSimilarity | resume_ranking_pipeline.py:72-89 | 0 for an empty text or when the vectoriser fails, otherwise 100 times the cosine; always in [0, 100] |
| RankingPipeline.ScoreResume | resume_ranking_pipeline.py:116-148 | the final score is 0.5·skill + 0.5·semantic, in [0, 100]; matching and missing are disjoint, together make the lowered job-skill set, and matching lies within the lowered resume skills |
| RankingPipeline.RankResumes | resume_ranking_pipeline.py:109-157 | one record per resume, rank `i+1` at position `i`, final scores non-increasing, a permutation of the scored resumes, equal scores in input order |
| RankingPipeline.RankedComeFromInput | resume_ranking_pipeline.py:115-157 | every ranked record is the score of some input resume |
| RankingPipeline.EmptyJobTextRanksBySkill | resume_ranking_pipeline.py:72-124 | with an empty job description the semantic score is 0, so the final score is half the skill score |
| StableSort.SortDesc | resume_ranking_pipeline.py:151 | a stable sort in descending order: non-increasing, a permutation, and for every key the same sequence of elements with that key |
| Ranking.RankByKey | resume_ranking_pipeline.py:150-155 | the sorted entries numbered 1..N in output order |
| Ranking.RankKeeps | resume_job_matcher.py:127-133 | ranking keeps every property all the entries share |
| StringOrder.Sort | skill_extractor.py:63 | `sorted()` on distinct strings: strictly increasing, with the same elements |
| StringOrder.SortedUnique | skill_extractor.py:63 | a strictly sorted list is determined by its set of elements |
| JobMatcher.SkillTokens | resume_job_matcher.py:38-39 | one token per comma-separated piece, the piece stripped and then lowered |
| JobMatcher.SkillTokensShape | resume_job_matcher.py:38-39 | there is at least one token; every token is trimmed, lower-case and comma-free |
| JobMatcher.SkillMatch | resume_job_matcher.py:23-47 | the score lies in [0, 1]; it is 0 when either string is empty; it is 1 iff both are non-empty and the job tokens are duplicate-free and all among the resume tokens |
| JobMatcher.SimilarityScore | resume_job_matcher.py:49-77 | 0 for an empty string or when the vectoriser raises, otherwise the cosine |
| JobMatcher.ScorePair | resume_job_matcher.py:98-125 | final score 0.7·match + 0.3·similarity, in [0, 1]; matching and missing are disjoint and together make the job-token set |
| JobMatcher.RankForJob | resume_job_matcher.py:96-133 | every resume once, ranks 1..N under the job's id, final scores non-increasing, equal scores in resume order |
| JobMatcher.RankCandidates | resume_job_matcher.py:79-135 | the table has `jobs × resumes` rows |
| JobMatcher.RankCandidatesAt | resume_job_matcher.py:92-133 | row `k` of job `j`'s ranking sits at index `j·N + k`: jobs in job order |
| JobMatcher.RankCandidatesRanks | resume_job_matcher.py:92-133 | within each job's block, ranks run 1..N and every row carries that job's id |

## Left out

- File input and output is not modelled. Text arrives as a string parameter. This covers:
  - PDF text extraction;
  - reading `skills.txt` and its fallback list;
  - pandas CSV loading and writing;
  - the HTML report;
  - the top-level file reads and the `print` in `parser.py`;
  - `convert_to_json`;
  - the `main` functions.
- `os.path.basename` is not modelled. The resume path is kept as given.
- The NLP model is a parameter. Noun phrases, sentences and PERSON entities are inputs, because their values come from a statistical model.
- The vectoriser and the cosine similarity are a parameter of type `Option<UnitReal>`. `None` stands for the exception path.
- Floating point is not modelled. Scores are exact reals, so rounding in the percentages and weighted sums is out of scope.
- Characters are ASCII:
  - `\w`, `\d`, letter classes and `lower`/`upper`/`title` act on ASCII only;
  - the length-changing Unicode case mappings are out;
  - `str.isspace` is modelled with its Unicode whitespace list.
- Sets converted to lists are modelled as sets:
  - matching and missing skills;
  - the entity extractor's skills and courses;
  - the CSV `','.join(set)` fields.

  Python's iteration order for those is unspecified.
- Missing or NaN descriptions in the job rows are modelled only as empty strings. A pandas NaN is truthy in the source and is not modelled.
- The resume dictionary is a sequence of (path, data) pairs in insertion order. Duplicate paths, which a dictionary cannot hold, are not excluded.
- The pandas DataFrames of the CSV job matcher are sequences of rows. Column types and the index are not modelled.
- `re.findall`'s rule for empty matches (the search moves on by one character) appears only in the course search, where no pattern can match the empty string.
- CleanText: its own ensures state only that the result is trimmed and which characters it may hold. Where spaces are kept, deleted or inserted is stated stage by stage (`DeleteRunsAppend`, `DeleteRunsMark`, `DeleteRunsNone`, `SpaceAfterAppend`, `SpaceAfterMark`, `SpaceAfterNone`) and for already-clean text by `CleanTextFixed`, not as one closed formula for the whole pipeline.
- SpaceAfter: its own ensures state only that the text does not shrink and keeps its first character. What it inserts, and where, is stated by `SpaceAfterAppend`, `SpaceAfterMark`, `SpaceAfterNone`, `SpaceAfterSolid` and `SpaceAfterKeeps`.
- Text.Words: states only that every word is non-empty and free of whitespace, not that the words cover every non-whitespace character of the text.
- The orchestration scripts, upload and input handlers, the separate ranking module and the broken test scripts are not modelled.
