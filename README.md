# Resume analyzer core, modelled in Dafny

This project models the analysis engine of the resume analyzer (`ml_utils.py`):

- **`grammar_check`**: a sentence heuristic. The text is cut at every `.`. Each piece is stripped, and empty pieces are skipped. A sentence that does not start with an uppercase letter draws a "capital" message. A sentence whose last character is not `.`, `!` or `?` draws a "punctuation" message.
- **`analyze_resume`**:
  - whitespace word count;
  - skills detected by substring against a fixed ordered list;
  - experience and education summaries cut out by a regular-expression search;
  - keyword overlap between the resume and a job description, with a percentage;
  - a predicted role;
  - an 80-point score with four 10-point deductions;
  - an ATS flag, a recommendation sentence and three fixed interview questions.
- **`extract_text`**: its choice of reader by lowercased file extension, and its joining of PDF pages.

Modules, one file each:

- `TextUtil` (`text_util.dfy`): Python's string primitives as the engine uses them. These are `str.lower`, `str.capitalize`, `str.strip`, `str.split()`, `str.split(c)`, `str.join`, `in` on strings and `re.findall(r'\w+', …)`.
- `Grammar` (`grammar.dfy`): `grammar_check`. It is an imperative loop that appends to a list, proved against the function `GrammarIssues`.
- `Sections` (`sections.dfy`): the two section searches. `re.search` with DOTALL on `(HEADER)(.*?)(BOUNDARY|$)` is written out as an explicit search. It finds the leftmost position where a header alternative matches, taking the first alternative in written order. The lazy group then ends at the first later position where a boundary word starts or `$` matches.
- `Analysis` (`analysis.dfy`): `analyze_resume`, as a method returning a record with one field per dictionary key.
- `Extraction` (`extraction.dfy`): the dispatch of `extract_text`. What each reader would return is a parameter.

Three behaviours of the code are easy to misread; the model follows the code in each:

- **Lazy section capture.** The section capture uses the lazy `(.*?)`. A summary therefore stops at the first boundary word after the header, not at the last one.
- **Header directly followed by a boundary.** `$` is one of the boundary alternatives, so when the leftmost header (the one the search finds) is directly followed by a boundary word, the summary is empty rather than the "not found" text (`HeaderThenBoundary`).
- **No sentence can end in `.`.** The text is split on `.` before the punctuation check runs, so that check never sees a `.`. A sentence is flagged exactly when it ends in neither `!` nor `?`, including a well-formed sentence closed by a period (`SentenceChecks`, `PeriodSentenceFlagged`).

## Model

| member | source | states |
|---|---|---|
| TextUtil.Lower | ml_utils.py:58 | the lowered text has the same length, and each character is the lowercase of the original one (ASCII letters change; every other character is kept) |
| TextUtil.Capitalize | ml_utils.py:65 | the first character is uppercased, the rest is lowercased, and the length is kept |
| TextUtil.SpacesContainNoWord | ml_utils.py:59 | an all-whitespace text contains no pattern that starts with a non-whitespace character |
| TextUtil.LowerPrepend | ml_utils.py:24 | lowering a text that starts with a given character lowers that character and then the rest, so a leading `.` is kept |
| TextUtil.Strip | ml_utils.py:13 | `strip()` never lengthens a text. Its full characterisation is `StripTrims` |
| TextUtil.StripTrims | ml_utils.py:13 | `strip` returns a contiguous slice of its input. Only whitespace lies before and after that slice. The result has no whitespace at either end, and it is empty exactly when the input is all whitespace |
| TextUtil.StripTrimmed | ml_utils.py:13 | stripping a text with no whitespace at either end changes nothing |
| TextUtil.SplitOn | ml_utils.py:11 | `split('.')` yields at least one piece, and no piece contains the separator |
| TextUtil.SplitOnSeparator | ml_utils.py:11 | splitting `a + c + t`, where `a` has no `c`, gives `a` followed by the pieces of `t` |
| TextUtil.JoinSplitRoundTrip | ml_utils.py:11 | joining the pieces of `split(c)` with `c` gives back the original text, so the split loses nothing but the separators |
| TextUtil.Join | ml_utils.py:38 | joining no parts gives the empty text. Otherwise the result is as long as the parts together, plus one separator between each two |
| TextUtil.SplitJoin | ml_utils.py:104 | splitting at `c` a list joined with `c + pad` gives the list back, each element after the first prefixed by `pad`, provided neither the elements nor `pad` contain `c` |
| TextUtil.SplitJoinRoundTrip | ml_utils.py:38 | splitting at `c` a list joined with `c` gives exactly the list back, provided no element contains `c` |
| TextUtil.Runs | ml_utils.py:46 | the maximal runs of a character class are non-empty, every character in them belongs to the class, and there are no more runs than characters |
| TextUtil.RunLengthOf | ml_utils.py:46 | a run of class characters followed by the end of the text, or by a character outside the class, is read whole |
| TextUtil.RunsSkip | ml_utils.py:46 | characters outside the class in front of a text add no run and change no run |
| TextUtil.RunsStep | ml_utils.py:46 | after any characters outside the class, the first run is exactly the maximal run `b` of class characters that follows, and the remaining runs are those of the rest. With `RunsEmptyIff` (no runs in a text with no class character) this fixes every run |
| TextUtil.RunsCountStarts | ml_utils.py:46 | the number of runs is the number of positions where a run of the class begins |
| TextUtil.RunsEmptyIff | ml_utils.py:46 | there are no runs exactly when no character of the text belongs to the class |
| TextUtil.RunsCoverClass | ml_utils.py:46 | the runs, concatenated, are the text with every character outside the class removed, so no class character is lost and none is reordered |
| TextUtil.Words | ml_utils.py:46 | the words of `split()` hold no whitespace |
| TextUtil.Tokens | ml_utils.py:77-78 | the `\w+` tokens consist of word characters only. Which strings they are is fixed by `RunsStep` with the word-character class |
| TextUtil.TokenSet | ml_utils.py:77-78 | every element of the token set is a non-empty string of word characters |
| Grammar.FragmentIssues | ml_utils.py:12-19 | the fragments give at most two messages each |
| Grammar.GrammarIssues | ml_utils.py:9-20 | the messages of `text` number at most twice the pieces of `text.split('.')`. `IssueCount`, `SentenceChecks` and `IssuesFollowSentences` state which messages they are |
| Grammar.SentenceIssues | ml_utils.py:14-19 | an empty stripped fragment contributes nothing, and any other contributes at most two messages |
| Grammar.CheckSentence | ml_utils.py:13-19 | one loop iteration produces the messages of the stripped fragment (capital message first), at most two |
| Grammar.GrammarCheck | ml_utils.py:9-20 | the loop over the fragments of `split('.')` returns `GrammarIssues(text)`: the messages of each fragment, in fragment order |
| Grammar.IssuesStep | ml_utils.py:12-19 | the messages of the first `k+1` fragments are those of the first `k`, followed by those of fragment `k` |
| Grammar.SentencesNonEmpty | ml_utils.py:14-15 | every sentence that is checked is non-empty |
| Grammar.IssueCount | ml_utils.py:9-20 | the number of messages is the number of sentences lacking a capital plus the number lacking end punctuation, hence at most twice the number of checked sentences |
| Grammar.GrammarIssuesBound | ml_utils.py:52-53 | `grammar_issues_count` is at most twice the number of non-empty stripped fragments |
| Grammar.SentenceChecks | ml_utils.py:11-19 | each checked sentence is non-empty and contains no `.`. It draws the punctuation message iff its last character is neither `!` nor `?`, and the capital message iff its first character is not `A`-`Z` |
| Grammar.StripAvoids | ml_utils.py:13 | stripping introduces no character |
| Grammar.SentencesAvoid | ml_utils.py:11-13 | a character absent from every fragment is absent from every checked sentence |
| Grammar.IssuesFollowSentences | ml_utils.py:12-19 | the messages are those of the checked sentences, concatenated in sentence order |
| Grammar.PeriodSentenceFlagged | ml_utils.py:11-18 | a trimmed sentence that starts with a capital, contains no `.`, does not end in `!` or `?` and is closed by one `.` gets exactly the punctuation message |
| Sections.AlternativeAt | ml_utils.py:63 | the alternation fails at a position iff no alternative matches there. Otherwise it yields the length of a matching alternative, which fits in the text |
| Sections.FindHeader | ml_utils.py:63 | the header search returns the leftmost position where a header matches, with the length of the first alternative matching there. If it finds nothing, no header matches anywhere |
| Sections.BoundaryFrom | ml_utils.py:63 | the lazy group ends at the first position after the header where a boundary word starts or `$` matches |
| Sections.SearchGroup | ml_utils.py:63-64 | the search fails exactly when no header word occurs anywhere in the text. A captured group is never longer than the text |
| Sections.Section | ml_utils.py:62-71 | with no header word anywhere the summary is the "not found" text. Otherwise, unless it equals that text, it is no longer than the lowercased text |
| Sections.ExperienceSummary | ml_utils.py:62-65 | `experience_summary` is "Experience section not found." when none of the three experience headers occurs. Otherwise it is that text or no longer than the lowercased resume |
| Sections.EducationSummary | ml_utils.py:68-71 | `education_summary` is "Education section not found." when "education" does not occur. Otherwise it is that text or no longer than the lowercased resume |
| Sections.FirstAlternative | ml_utils.py:63 | when alternative `i` is the first one to match at a position, the alternation picks it |
| Sections.LeftmostHeader | ml_utils.py:63 | when no header matches before `p` and header `i` is the first alternative matching at `p`, the search finds header `i` at `p` |
| Sections.FirstBoundary | ml_utils.py:63 | the group ends at `k` when `k` is the first boundary position |
| Sections.NoHeaderGivesSentinel | ml_utils.py:62-65 | with no header word anywhere, the summary is the "not found" text |
| Sections.SectionGroup | ml_utils.py:62-65 | take the leftmost header, the first alternative that matches there, and the first boundary or `$` after it. `group(2)` is exactly the text between them, so the capture never runs past the first boundary |
| Sections.SectionCaptures | ml_utils.py:62-71 | under the same conditions, the summary is that text stripped and capitalized |
| Sections.HeaderThenBoundary | ml_utils.py:63-65 | when the leftmost header (the one the search finds) is directly followed by a boundary word, the summary is empty, not the "not found" text |
| Sections.ExperienceHeadersExclusive | ml_utils.py:63 | at any position at most one experience header matches, so the order of the alternatives never matters |
| Analysis.WordCount | ml_utils.py:46 | `word_count` never exceeds the length of the text |
| Analysis.WordCountIsRunStarts | ml_utils.py:46 | `word_count` is the number of positions where a maximal run of non-whitespace begins |
| Analysis.NoWordsIffBlank | ml_utils.py:46 | `word_count` is 0 exactly when the text is all whitespace |
| Analysis.DetectIn | ml_utils.py:59 | the comprehension keeps exactly the skills that occur in the text, in list order, and adds none |
| Analysis.SubsequenceNoDuplicates | ml_utils.py:59 | an in-order selection from a list without duplicates has no duplicates and draws only from that list |
| Analysis.SkillsDbNoDuplicates | ml_utils.py:56-57 | `skills_db` lists no skill twice |
| Analysis.DetectSkills | ml_utils.py:56-59 | `detected_skills` holds at most the 17 skills of `skills_db`, and only skills that occur in the lowercased text |
| Analysis.DetectedSkillsExact | ml_utils.py:56-59 | `detected_skills` is the in-order subsequence of `skills_db` whose entries occur in the lowercased text, and it has no duplicates |
| Analysis.DetectNone | ml_utils.py:59 | when no skill occurs, nothing is detected |
| Analysis.BlankTextNoSkills | ml_utils.py:58-59 | a text without words (empty or all whitespace) has no detected skills |
| Analysis.AtsIffSomeSkill | ml_utils.py:100 | `ats_compatible` holds iff some skill of `skills_db` occurs in the lowercased text |
| Analysis.MatchKeywords | ml_utils.py:74-82 | with no job description, or an empty one, the score is 0 and nothing is matched. Otherwise the matched words are tokens of both texts, and the score lies in [0, 100] |
| Analysis.KeywordBlock | ml_utils.py:74-82 | the branches of the keyword block (start at 0 and empty, set only for a non-empty job description, score only with a token) compute `MatchKeywords`, and the score lies in [0, 100] |
| Analysis.NoTokensNoMatch | ml_utils.py:76-82 | a job description without word characters matches nothing and scores 0 |
| Analysis.ScoreIsShare | ml_utils.py:77-82 | with at least one job-description token, `matched_keywords` is exactly the common tokens, and score × \|jd_words\| = \|matched\| × 100 |
| Analysis.IntersectionSize | ml_utils.py:79-82 | the matched set is no larger than the job description's token set, so the share never exceeds 100 |
| Analysis.PredictedRole | ml_utils.py:85 | the role is "Data Scientist" iff the lowercased text contains "machine learning" or "data", and "General Professional" otherwise |
| Analysis.MachineLearningSkillMeansDataScientist | ml_utils.py:85 | detecting the skill "machine learning" implies the Data Scientist role |
| Analysis.BlankTextGeneralRole | ml_utils.py:85 | a text without words gets the General Professional role |
| Analysis.Deductions | ml_utils.py:89-96 | at most four deductions apply |
| Analysis.ResumeScore | ml_utils.py:88-97 | the score is 80 − 10·k for the k conditions that hold. It is always one of 40, 50, 60, 70 or 80, so the `max(0, …)` clamp never changes it |
| Analysis.Take3 | ml_utils.py:104 | `detected_skills[:3]` is the prefix of length min(3, \|skills\|) |
| Analysis.Recommendation | ml_utils.py:103-104 | `career_recommendation` starts with the fixed text, then names the role, and ends with `.` |
| Analysis.RecommendationReadBack | ml_utils.py:103-104 | the role sits right after the fixed prefix, and the sentence ends with `.`. With no detected skill the skill part is empty ("… Enhance skills in ."). Otherwise the skill part, cut at its commas, gives exactly the first min(3, \|skills\|) skills, each after the first with its leading blank |
| Analysis.AnalyzeResume | ml_utils.py:44-128 | every field of the result is its step's value. The count equals the length of the message list, the score is one of 40, 50, 60, 70 or 80, the keyword score is in [0, 100], and `ats_compatible` holds iff a skill was detected |
| Analysis.InterviewQuestions | ml_utils.py:107-111 | the three fixed interview questions, the same for every resume (`AnalyzeResume` returns them unchanged) |
| Analysis.BlankResume | ml_utils.py:44-104 | a resume without words yields no skills and the General Professional role, and its recommendation names no skill |
| Extraction.LastIndexOf | ml_utils.py:24 | the position found holds the character, and no later position does |
| Extraction.Extension | ml_utils.py:24 | `splitext` returns a suffix of the path. It is either empty, or a dot followed by no other dot and no `/` |
| Extraction.LastIndexOfIs | ml_utils.py:24 | the last occurrence of a character is the one with no occurrence after it |
| Extraction.LastIndexOfAppend | ml_utils.py:24 | characters other than `c` appended to a text do not move its last `c` |
| Extraction.ExtensionAt | ml_utils.py:24 | when the last dot lies in the last path component after a character other than a dot, the extension is the suffix from that dot |
| Extraction.ExtensionPresentIff | ml_utils.py:24 | a path has an extension iff its last component holds a dot after some character other than a dot. So `.pdf` and `..pdf` have none, and `a..pdf` has one |
| Extraction.ExtensionOfName | ml_utils.py:24 | a name `stem + ext`, where `ext` is a dot followed by no dot and no slash and the stem's last component holds a character other than a dot, has extension `ext`. This covers `x_cv..pdf` |
| Extraction.ExtensionCaseIgnored | ml_utils.py:24-31 | the extension is compared lowercased, so `CV.PDF` and `x_cv..PDF` are dispatched as `.pdf` |
| Extraction.Supported | ml_utils.py:26-31 | each extension with a reader is a well-formed extension: a dot, then no other dot and no slash |
| Extraction.SupportedName | ml_utils.py:24-41 | a name `stem.e` whose stem has a non-dot character in its last component has a reader exactly when `e` lowercased is `txt`, `docx` or `pdf`: `cv.PDF` is read, `cv.pdf.bak` is refused |
| Extraction.ExtractText | ml_utils.py:23-41 | an extension other than `.txt`, `.docx` or `.pdf` (case ignored) fails with "unsupported file type". Otherwise the result is the plain text, the docx text, or the PDF pages joined by `"\n"` |
| Extraction.PdfPagesRecoverable | ml_utils.py:37-38 | cutting a PDF's text at newlines gives the pages back in order when no page holds a newline |
| Extraction.PdfTextLength | ml_utils.py:38 | the PDF text is as long as its pages together, plus one newline between each two |

## Left out

- The web application (routes, sessions, the user database, password hashing, uploads) is not part of this model: it is I/O glue.
- The Flesch reading-ease score (ml_utils.py:49) is a floating-point library call. `AnalyzeResume` takes it as the parameter `readability`.
- Analysis.MatchKeywords: the score is the exact rational share. The `round(…, 2)` of ml_utils.py:82 is not modelled. This changes the `< 30` deduction only for a job description with at least 2000 distinct tokens.
- Extraction.ExtractText: reading the file (`open`, `docx2txt.process`, `pdfplumber`) is foreign I/O. The readers' output is the parameter `contents`. A page with no text (`None`, which makes the join raise) and the missing-`pdfplumber` `ImportError` are not modelled.
- Character classes:
  - `str.lower`, `str.capitalize`, `str.isupper` and the regex `\w` are modelled on ASCII only. Unicode case mapping and Unicode word characters are not modelled.
  - Whitespace for `strip()` and `split()` is Python's full whitespace set.
- Extraction.Extension: only POSIX `os.path.splitext` is modelled, with `/` as the only separator. Windows' `\` separator is not. Upload names have both removed by `secure_filename` (app.py:118) before they reach `extract_text`.
- Sections.FindHeader: the regex engine is replaced by an explicit search. It yields the same match for these patterns: literal alternatives, a lazy group and `$` under DOTALL.
- The matched keywords are modelled as a set. The source turns that set into a list in hash order, which is not modelled.
- `generate_pdf_report` and `init_db` are not part of this model. The first is page layout through a PDF library; the second does nothing.
