/** `analyze_resume` of ml_utils.py: word count, grammar issues, skill
    detection, section summaries, keyword overlap with a job description,
    predicted role, resume score, ATS flag, recommendation and interview
    questions. The Flesch readability score is supplied by the caller. */
module Analysis {
  import opened TextUtil
  import Grammar
  import Sections

  /** The result dictionary of `analyze_resume`, as a record. */
  datatype AnalysisResult = AnalysisResult(
    wordCount: nat,
    readability: real,
    grammarIssuesCount: nat,
    grammarIssues: seq<string>,
    detectedSkills: seq<string>,
    experienceSummary: string,
    educationSummary: string,
    keywordMatchScore: real,
    matchedKeywords: set<string>,
    predictedRole: string,
    resumeScore: int,
    atsCompatible: bool,
    careerRecommendation: string,
    interviewQuestions: seq<string>)

  // ---------------------------------------------------------------------
  // Word count
  // ---------------------------------------------------------------------

  /** `len(text.split())`. */
  function WordCount(text: string): (n: nat)
    ensures n <= |text|
  {
    |Words(text)|
  }

  /** The word count is the number of positions where a run of
      non-whitespace characters begins. */
  lemma WordCountIsRunStarts(text: string)
    ensures WordCount(text) == RunStarts(text, NotSpace, true)
  {
    RunsCountStarts(text, NotSpace);
  }

  /** A text has no words exactly when it is all whitespace. */
  lemma NoWordsIffBlank(text: string)
    ensures WordCount(text) == 0 <==> AllSpace(text)
  {
    RunsEmptyIff(text, NotSpace);
  }

  // ---------------------------------------------------------------------
  // Skills
  // ---------------------------------------------------------------------

  /** `skills_db`, in its order. */
  const SkillsDb: seq<string> := ["python", "java", "sql", "machine learning", "docker", "aws", "git", "linux",
                                  "c++", "javascript", "tensorflow", "html", "css", "react", "nodejs", "flask", "django"]

  predicate NoDuplicates(xs: seq<string>) {
    forall i, j | 0 <= i < j < |xs| :: xs[i] != xs[j]
  }

  /** `xs` is `ys` with some entries dropped, order kept. */
  predicate IsSubsequence(xs: seq<string>, ys: seq<string>)
    decreases |ys|
  {
    if xs == [] then true
    else if ys == [] then false
    else if xs[0] == ys[0] then IsSubsequence(xs[1..], ys[1..])
    else IsSubsequence(xs, ys[1..])
  }

  /** `[skill for skill in db if skill in textLower]`. */
  function DetectIn(db: seq<string>, textLower: string): (r: seq<string>)
    ensures |r| <= |db|
    ensures forall x :: x in r <==> x in db && Contains(textLower, x)
    ensures IsSubsequence(r, db)
  {
    if db == [] then []
    else
      var rest := DetectIn(db[1..], textLower);
      assert forall x :: x in db <==> x == db[0] || x in db[1..];
      if Contains(textLower, db[0]) then [db[0]] + rest
      else
        SubsequenceSkip(rest, db[0], db[1..]);
        rest
  }

  /** Putting an entry in front of `ys` keeps every subsequence of `ys`. */
  lemma {:induction false} SubsequenceSkip(xs: seq<string>, y: string, ys: seq<string>)
    requires IsSubsequence(xs, ys)
    ensures IsSubsequence(xs, [y] + ys)
    decreases |ys|, 1
  {
    assert ([y] + ys)[1..] == ys;
    if xs != [] && xs[0] == y {
      SubsequenceTail(xs, ys);
    }
  }

  /** Dropping the first entry of a subsequence keeps it a subsequence. */
  lemma {:induction false} SubsequenceTail(xs: seq<string>, ys: seq<string>)
    requires xs != [] && IsSubsequence(xs, ys)
    ensures IsSubsequence(xs[1..], ys)
    decreases |ys|, 0
  {
    if xs[0] == ys[0] {
      SubsequenceSkip(xs[1..], ys[0], ys[1..]);
    } else {
      SubsequenceTail(xs, ys[1..]);
      SubsequenceSkip(xs[1..], ys[0], ys[1..]);
    }
    assert [ys[0]] + ys[1..] == ys;
  }

  /** A subsequence of a list without duplicates has no duplicates. */
  lemma {:induction false} SubsequenceNoDuplicates(xs: seq<string>, ys: seq<string>)
    requires IsSubsequence(xs, ys) && NoDuplicates(ys)
    ensures NoDuplicates(xs)
    ensures forall x :: x in xs ==> x in ys
    decreases |ys|
  {
    if xs != [] && ys != [] {
      if xs[0] == ys[0] {
        SubsequenceNoDuplicates(xs[1..], ys[1..]);
        assert forall x :: x in xs[1..] ==> x in ys[1..];
        assert xs[0] !in ys[1..];
        assert forall j | 1 <= j < |xs| :: xs[j] in xs[1..];
      } else {
        SubsequenceNoDuplicates(xs, ys[1..]);
      }
    }
  }

  lemma SkillsDbNoDuplicates()
    ensures NoDuplicates(SkillsDb)
  {
  }

  /** `detected_skills`. */
  function DetectSkills(textLower: string): (r: seq<string>)
    ensures |r| <= |SkillsDb|
    ensures forall x | x in r :: x in SkillsDb && Contains(textLower, x)
  {
    DetectIn(SkillsDb, textLower)
  }

  /** `detected_skills` is the in-order subsequence of `skills_db` whose
      entries occur in the lowercased text, and it has no duplicates. */
  lemma DetectedSkillsExact(textLower: string)
    ensures IsSubsequence(DetectSkills(textLower), SkillsDb)
    ensures forall x :: x in DetectSkills(textLower) <==> x in SkillsDb && Contains(textLower, x)
    ensures NoDuplicates(DetectSkills(textLower))
  {
    SkillsDbNoDuplicates();
    SubsequenceNoDuplicates(DetectSkills(textLower), SkillsDb);
  }

  /** A text with no words (empty or all whitespace) has no skills: every
      skill starts with a non-whitespace character. */
  lemma {:induction false} BlankTextNoSkills(text: string)
    requires WordCount(text) == 0
    ensures DetectSkills(Lower(text)) == []
  {
    NoWordsIffBlank(text);
    var lower := Lower(text);
    assert AllSpace(lower);
    forall k | 0 <= k < |SkillsDb| ensures !Contains(lower, SkillsDb[k]) {
      SpacesContainNoWord(lower, SkillsDb[k]);
    }
    DetectNone(SkillsDb, lower);
  }

  lemma {:induction false} DetectNone(db: seq<string>, textLower: string)
    requires forall k | 0 <= k < |db| :: !Contains(textLower, db[k])
    ensures DetectIn(db, textLower) == []
  {
    if db != [] {
      DetectNone(db[1..], textLower);
    }
  }

  // ---------------------------------------------------------------------
  // Keyword match
  // ---------------------------------------------------------------------

  datatype KeywordMatch = KeywordMatch(score: real, matched: set<string>)

  /** The keyword block: the score is `|matched| / |jd_words| * 100`, where
      the job description's and the resume's `\w+` tokens are intersected. */
  function MatchKeywords(jobDescription: Option<string>, textLower: string): (r: KeywordMatch)
    ensures jobDescription.None? || jobDescription.value == [] ==> r == KeywordMatch(0.0, {})
    ensures r.matched <= TokenSet(textLower)
    ensures jobDescription.Some? ==> r.matched <= TokenSet(Lower(jobDescription.value))
    ensures 0.0 <= r.score <= 100.0
  {
    if jobDescription.None? || jobDescription.value == [] then KeywordMatch(0.0, {})
    else
      var jdWords := TokenSet(Lower(jobDescription.value));
      var resumeWords := TokenSet(textLower);
      var matched := jdWords * resumeWords;
      IntersectionSize(jdWords, resumeWords);
      ShareBounds(|matched| as real, |jdWords| as real);
      KeywordMatch(if |jdWords| > 0 then (|matched| as real) / (|jdWords| as real) * 100.0 else 0.0, matched)
  }

  /** The keyword block of `analyze_resume`, with its branches: the score
      and the matched words start at 0 and empty, and are set only for a
      non-empty job description. */
  method KeywordBlock(jobDescription: Option<string>, textLower: string)
    returns (keywordMatchScore: real, matchedKeywords: set<string>)
    ensures KeywordMatch(keywordMatchScore, matchedKeywords) == MatchKeywords(jobDescription, textLower)
    ensures 0.0 <= keywordMatchScore <= 100.0
  {
    keywordMatchScore := 0.0;
    matchedKeywords := {};
    if jobDescription.Some? && jobDescription.value != [] {
      var jdWords := TokenSet(Lower(jobDescription.value));
      var resumeWords := TokenSet(textLower);
      var matched := jdWords * resumeWords;
      matchedKeywords := matched;
      if |jdWords| > 0 {
        keywordMatchScore := (|matched| as real) / (|jdWords| as real) * 100.0;
      }
    }
  }

  lemma IntersectionSize(a: set<string>, b: set<string>)
    ensures |a * b| <= |a|
  {
    SubsetSize(a * b, a);
  }

  lemma {:induction false} SubsetSize(a: set<string>, b: set<string>)
    requires a <= b
    ensures |a| <= |b|
    decreases |a|
  {
    if a != {} {
      var x :| x in a;
      SubsetSize(a - {x}, b - {x});
    }
  }

  /** A job description without word characters matches nothing and scores 0. */
  lemma NoTokensNoMatch(jobDescription: string, textLower: string)
    requires forall i | 0 <= i < |jobDescription| :: !IsWordChar(jobDescription[i])
    ensures MatchKeywords(Some(jobDescription), textLower) == KeywordMatch(0.0, {})
  {
    var jdLower := Lower(jobDescription);
    forall i | 0 <= i < |jdLower| ensures !IsWordChar(jdLower[i]) {
      assert jdLower[i] == LowerChar(jobDescription[i]);
    }
    RunsEmptyIff(jdLower, IsWordChar);
    assert TokenSet(jdLower) == {};
  }

  /** With at least one job-description token, the matched set is exactly
      the common tokens and the score is their share of the job
      description's tokens, in percent. */
  lemma ScoreIsShare(jobDescription: string, textLower: string)
    requires |TokenSet(Lower(jobDescription))| > 0
    ensures MatchKeywords(Some(jobDescription), textLower).matched
         == TokenSet(Lower(jobDescription)) * TokenSet(textLower)
    ensures MatchKeywords(Some(jobDescription), textLower).score * (|TokenSet(Lower(jobDescription))| as real)
         == (|MatchKeywords(Some(jobDescription), textLower).matched| as real) * 100.0
  {
    var jdWords := TokenSet(Lower(jobDescription));
    var matched := jdWords * TokenSet(textLower);
    TokensNeedText(jobDescription);
    MatchOfDescription(jobDescription, textLower, jdWords, matched);
    ShareOfMatch(MatchKeywords(Some(jobDescription), textLower), jdWords, matched);
  }

  lemma TokensNeedText(s: string)
    requires |TokenSet(Lower(s))| > 0
    ensures s != []
  {
  }

  lemma MatchOfDescription(jobDescription: string, textLower: string, jdWords: set<string>, matched: set<string>)
    requires jobDescription != [] && jdWords == TokenSet(Lower(jobDescription)) && jdWords != {}
    requires matched == jdWords * TokenSet(textLower)
    ensures MatchKeywords(Some(jobDescription), textLower)
         == KeywordMatch((|matched| as real) / (|jdWords| as real) * 100.0, matched)
  {
  }

  lemma ShareOfMatch(r: KeywordMatch, jdWords: set<string>, matched: set<string>)
    requires |jdWords| > 0
    requires r == KeywordMatch((|matched| as real) / (|jdWords| as real) * 100.0, matched)
    ensures r.score * (|jdWords| as real) == (|r.matched| as real) * 100.0
  {
    ShareTimesTotal(r.score, |matched| as real, |jdWords| as real);
  }

  lemma ShareBounds(m: real, n: real)
    requires 0.0 <= m <= n
    ensures n > 0.0 ==> 0.0 <= m / n * 100.0 <= 100.0
  {
    if n > 0.0 {
      assert m / n <= 1.0;
    }
  }

  lemma ShareTimesTotal(score: real, m: real, n: real)
    requires n > 0.0 && score == m / n * 100.0
    ensures score * n == m * 100.0
  {
    calc {
      score * n;
      == (m / n * 100.0) * n;
      == (m / n * n) * 100.0;
      == { assert m / n * n == m; } m * 100.0;
    }
  }

  // ---------------------------------------------------------------------
  // Role, score, ATS flag, recommendation, questions
  // ---------------------------------------------------------------------

  const DataScientist: string := "Data Scientist"
  const GeneralProfessional: string := "General Professional"

  /** `predicted_role`. */
  function PredictedRole(textLower: string): (r: string)
    ensures r == DataScientist || r == GeneralProfessional
    ensures r == DataScientist <==> Contains(textLower, "machine learning") || Contains(textLower, "data")
  {
    if Contains(textLower, "machine learning") || Contains(textLower, "data") then DataScientist
    else GeneralProfessional
  }

  /** Detecting the skill "machine learning" implies the Data Scientist role. */
  lemma MachineLearningSkillMeansDataScientist(textLower: string)
    requires "machine learning" in DetectSkills(textLower)
    ensures PredictedRole(textLower) == DataScientist
  {
  }

  /** A text without words gets the General Professional role. */
  lemma BlankTextGeneralRole(text: string)
    requires WordCount(text) == 0
    ensures PredictedRole(Lower(text)) == GeneralProfessional
  {
    NoWordsIffBlank(text);
    SpacesContainNoWord(Lower(text), "machine learning");
    SpacesContainNoWord(Lower(text), "data");
  }

  /** Number of triggered deductions of the resume score. */
  function Deductions(readability: real, grammarIssuesCount: nat, skillCount: nat, keywordScore: real): (k: nat)
    ensures k <= 4
  {
    (if readability < 50.0 then 1 else 0)
    + (if grammarIssuesCount > 5 then 1 else 0)
    + (if skillCount < 3 then 1 else 0)
    + (if keywordScore < 30.0 then 1 else 0)
  }

  /** `resume_score`: start at 80, take 10 off per triggered condition,
      clamp at 0. The clamp never applies. */
  method ResumeScore(readability: real, grammarIssuesCount: nat, skillCount: nat, keywordScore: real)
    returns (resumeScore: int)
    ensures resumeScore == 80 - 10 * Deductions(readability, grammarIssuesCount, skillCount, keywordScore)
    ensures 40 <= resumeScore <= 80 && resumeScore % 10 == 0
    ensures resumeScore in {40, 50, 60, 70, 80}
  {
    var score := 80;
    if readability < 50.0 {
      score := score - 10;
    }
    if grammarIssuesCount > 5 {
      score := score - 10;
    }
    if skillCount < 3 {
      score := score - 10;
    }
    if keywordScore < 30.0 {
      score := score - 10;
    }
    resumeScore := if score < 0 then 0 else score;
  }

  const RecommendationPrefix: string := "Consider applying for more "
  const RecommendationMiddle: string := " positions. Enhance skills in "

  function Take3(skills: seq<string>): (r: seq<string>)
    ensures |r| == if |skills| < 3 then |skills| else 3
    ensures r == skills[..|r|]
  {
    if |skills| < 3 then skills else skills[..3]
  }

  /** `career_recommendation`. */
  function Recommendation(role: string, skills: seq<string>): (r: string)
    ensures |r| > |RecommendationPrefix| + |role| + |RecommendationMiddle|
    ensures r[..|RecommendationPrefix|] == RecommendationPrefix
    ensures r[|RecommendationPrefix|..|RecommendationPrefix| + |role|] == role
    ensures r[|r| - 1] == '.'
  {
    RecommendationPrefix + role + RecommendationMiddle + Join(", ", Take3(skills)) + "."
  }

  /** The recommendation can be read back: the role sits right after the
      fixed prefix, and the skills part, cut at its commas, gives exactly
      the first `min(3, |skills|)` skills (each after the first still
      carrying its leading blank). With no skill the skills part is empty,
      so the sentence ends "Enhance skills in .". */
  lemma {:induction false} RecommendationReadBack(role: string, skills: seq<string>)
    requires forall k | 0 <= k < |skills| :: ',' !in skills[k]
    ensures var r := Recommendation(role, skills);
      var body := r[|RecommendationPrefix| + |role| + |RecommendationMiddle|..|r| - 1];
      && r[|RecommendationPrefix|..|RecommendationPrefix| + |role|] == role
      && r[|r| - 1] == '.'
      && (skills == [] ==> body == "")
      && (skills != [] ==> SplitOn(body, ',') == PadTail(Take3(skills), " "))
  {
    var first := Take3(skills);
    var joined := Join(", ", first);
    var r := Recommendation(role, skills);
    assert r == RecommendationPrefix + role + RecommendationMiddle + joined + ".";
    var n := |RecommendationPrefix| + |role| + |RecommendationMiddle|;
    assert r[n..|r| - 1] == joined;
    assert r[|RecommendationPrefix|..|RecommendationPrefix| + |role|] == role;
    if skills != [] {
      assert ", " == [','] + " ";
      SplitJoin(',', " ", first);
    }
  }

  /** `interview_questions`: the same three questions for every resume. */
  const InterviewQuestions: seq<string> := [
    "Explain supervised vs unsupervised learning.",
    "Describe a machine learning project you worked on.",
    "How do you handle missing data?"
  ]

  // ---------------------------------------------------------------------
  // The pipeline
  // ---------------------------------------------------------------------

  /** `analyze_resume(text, job_description)`, with `readability` the
      (rounded) Flesch reading-ease score of `text`. */
  method AnalyzeResume(text: string, jobDescription: Option<string>, readability: real)
    returns (r: AnalysisResult)
    ensures r.wordCount == WordCount(text)
    ensures r.readability == readability
    ensures r.grammarIssues == Grammar.GrammarIssues(text)
    ensures r.grammarIssuesCount == |r.grammarIssues|
    ensures r.detectedSkills == DetectSkills(Lower(text))
    ensures r.experienceSummary == Sections.ExperienceSummary(Lower(text))
    ensures r.educationSummary == Sections.EducationSummary(Lower(text))
    ensures KeywordMatch(r.keywordMatchScore, r.matchedKeywords) == MatchKeywords(jobDescription, Lower(text))
    ensures 0.0 <= r.keywordMatchScore <= 100.0
    ensures r.predictedRole == PredictedRole(Lower(text))
    ensures r.resumeScore == 80 - 10 * Deductions(readability, r.grammarIssuesCount, |r.detectedSkills|, r.keywordMatchScore)
    ensures r.resumeScore in {40, 50, 60, 70, 80}
    ensures r.atsCompatible <==> r.detectedSkills != []
    ensures r.careerRecommendation == Recommendation(r.predictedRole, r.detectedSkills)
    ensures r.interviewQuestions == InterviewQuestions
  {
    var wordCount := |Words(text)|;
    var grammarIssues := Grammar.GrammarCheck(text);
    var grammarIssuesCount := |grammarIssues|;
    var textLower := Lower(text);
    var detectedSkills := DetectSkills(textLower);
    var experience := Sections.ExperienceSummary(textLower);
    var education := Sections.EducationSummary(textLower);

    var keywordMatchScore, matchedKeywords := KeywordBlock(jobDescription, textLower);

    var predictedRole := PredictedRole(textLower);
    var resumeScore := ResumeScore(readability, grammarIssuesCount, |detectedSkills|, keywordMatchScore);
    var atsCompatible := |detectedSkills| > 0;
    var careerRecommendation := Recommendation(predictedRole, detectedSkills);

    r := AnalysisResult(wordCount, readability, grammarIssuesCount, grammarIssues, detectedSkills,
                        experience, education, keywordMatchScore, matchedKeywords, predictedRole,
                        resumeScore, atsCompatible, careerRecommendation, InterviewQuestions);
  }

  /** `ats_compatible` holds exactly when some skill of `skills_db` occurs in
      the lowercased text. */
  lemma AtsIffSomeSkill(textLower: string)
    ensures DetectSkills(textLower) != [] <==> exists x | x in SkillsDb :: Contains(textLower, x)
  {
    if DetectSkills(textLower) != [] {
      assert DetectSkills(textLower)[0] in DetectSkills(textLower);
    }
  }

  /** A resume without words is analyzed without failure into no skills,
      the General Professional role, no ATS compatibility and a
      recommendation that names no skill. */
  lemma BlankResume(text: string)
    requires WordCount(text) == 0
    ensures DetectSkills(Lower(text)) == []
    ensures PredictedRole(Lower(text)) == GeneralProfessional
    ensures Recommendation(PredictedRole(Lower(text)), DetectSkills(Lower(text)))
            == RecommendationPrefix + GeneralProfessional + RecommendationMiddle + "."
  {
    BlankTextNoSkills(text);
    BlankTextGeneralRole(text);
    var none: seq<string> := [];
    assert Take3(none) == none;
    assert Join(", ", none) == "";
    assert DetectSkills(Lower(text)) == none;
    assert RecommendationPrefix + GeneralProfessional + RecommendationMiddle + "" == RecommendationPrefix + GeneralProfessional + RecommendationMiddle;
  }
}
