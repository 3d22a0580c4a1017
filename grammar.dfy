/** The sentence heuristic `grammar_check` of ml_utils.py: the text is cut at
    every `.`, each piece is stripped, empty pieces are skipped, and each
    remaining sentence may draw a "capital" message and a "punctuation"
    message, in that order. */
module Grammar {
  import opened TextUtil

  const CapitalPrefix: string := "Sentence doesn't start with capital: "
  const PunctuationPrefix: string := "Sentence missing proper punctuation: "

  /** The characters the punctuation check accepts at the end of a sentence. */
  predicate IsTerminator(c: char) {
    c == '.' || c == '!' || c == '?'
  }

  predicate LacksCapital(sentence: string)
    requires sentence != []
  {
    !IsUpper(sentence[0])
  }

  predicate LacksPunctuation(sentence: string)
    requires sentence != []
  {
    !IsTerminator(sentence[|sentence| - 1])
  }

  /** The message text of each check. */
  function CapitalMessage(sentence: string): string
  {
    CapitalPrefix + sentence
  }

  function PunctuationMessage(sentence: string): string
  {
    PunctuationPrefix + sentence
  }

  /** The capital message of a non-empty sentence, if it draws one. */
  function CapitalIssue(sentence: string): seq<string>
    requires sentence != []
  {
    if LacksCapital(sentence) then [CapitalMessage(sentence)] else []
  }

  /** The punctuation message of a non-empty sentence, if it draws one. */
  function PunctuationIssue(sentence: string): seq<string>
    requires sentence != []
  {
    if LacksPunctuation(sentence) then [PunctuationMessage(sentence)] else []
  }

  /** The messages one stripped fragment contributes: none for an empty
      one, otherwise the capital check's before the punctuation check's. */
  function SentenceIssues(sentence: string): (r: seq<string>)
    ensures |r| <= 2
    ensures sentence == [] ==> r == []
  {
    if sentence == [] then [] else CapitalIssue(sentence) + PunctuationIssue(sentence)
  }

  /** The messages of a sequence of raw fragments, in fragment order. */
  function FragmentIssues(fragments: seq<string>): (r: seq<string>)
    ensures |r| <= 2 * |fragments|
  {
    if fragments == [] then []
    else FragmentIssues(fragments[..|fragments| - 1]) + SentenceIssues(Strip(fragments[|fragments| - 1]))
  }

  /** The result of `grammar_check(text)`. */
  function GrammarIssues(text: string): (r: seq<string>)
    ensures |r| <= 2 * |SplitOn(text, '.')|
  {
    FragmentIssues(SplitOn(text, '.'))
  }

  /** `grammar_check`: the loop over the fragments of `text.split('.')`. */
  method GrammarCheck(text: string) returns (issues: seq<string>)
    ensures issues == GrammarIssues(text)
  {
    issues := [];
    var sentences := SplitOn(text, '.');
    for k := 0 to |sentences|
      invariant issues == FragmentIssues(sentences[..k])
    {
      var sentence := Strip(sentences[k]);
      var found := CheckSentence(sentence);
      IssuesStep(sentences, k);
      issues := issues + found;
    }
    assert sentences[..|sentences|] == sentences;
  }

  /** The body of the loop for one stripped fragment: nothing for an empty
      one, else the capital check and then the punctuation check. */
  method CheckSentence(sentence: string) returns (found: seq<string>)
    ensures found == SentenceIssues(sentence)
    ensures |found| <= 2
  {
    found := [];
    if sentence == [] {
      return;
    }
    if !IsUpper(sentence[0]) {
      found := found + [CapitalMessage(sentence)];
    }
    if !IsTerminator(sentence[|sentence| - 1]) {
      found := found + [PunctuationMessage(sentence)];
    }
  }

  lemma IssuesStep(fragments: seq<string>, k: nat)
    requires k < |fragments|
    ensures FragmentIssues(fragments[..k + 1])
            == FragmentIssues(fragments[..k]) + SentenceIssues(Strip(fragments[k]))
  {
    assert fragments[..k + 1][..k] == fragments[..k];
  }

  // ---------------------------------------------------------------------
  // Properties
  // ---------------------------------------------------------------------

  /** The stripped, non-empty fragments of `text`: the sentences checked. */
  function Sentences(fragments: seq<string>): seq<string>
  {
    if fragments == [] then []
    else
      var s := Strip(fragments[|fragments| - 1]);
      Sentences(fragments[..|fragments| - 1]) + (if s == [] then [] else [s])
  }

  /** Number of sentences that draw a capital message. */
  function CapitalCount(sentences: seq<string>): nat
    requires forall k :: 0 <= k < |sentences| ==> sentences[k] != []
  {
    if sentences == [] then 0
    else CapitalCount(sentences[..|sentences| - 1])
         + (if LacksCapital(sentences[|sentences| - 1]) then 1 else 0)
  }

  /** Number of sentences that draw a punctuation message. */
  function PunctuationCount(sentences: seq<string>): nat
    requires forall k :: 0 <= k < |sentences| ==> sentences[k] != []
  {
    if sentences == [] then 0
    else PunctuationCount(sentences[..|sentences| - 1])
         + (if LacksPunctuation(sentences[|sentences| - 1]) then 1 else 0)
  }

  lemma {:induction false} SentencesNonEmpty(fragments: seq<string>)
    ensures forall k :: 0 <= k < |Sentences(fragments)| ==> Sentences(fragments)[k] != []
  {
    if fragments != [] {
      SentencesNonEmpty(fragments[..|fragments| - 1]);
    }
  }

  /** The number of messages is the number of sentences lacking a capital
      plus the number lacking end punctuation, hence at most two per sentence. */
  lemma {:induction false} IssueCount(fragments: seq<string>)
    ensures forall k :: 0 <= k < |Sentences(fragments)| ==> Sentences(fragments)[k] != []
    ensures |FragmentIssues(fragments)|
            == CapitalCount(Sentences(fragments)) + PunctuationCount(Sentences(fragments))
    ensures |FragmentIssues(fragments)| <= 2 * |Sentences(fragments)|
  {
    SentencesNonEmpty(fragments);
    if fragments != [] {
      var init := fragments[..|fragments| - 1];
      var s := Strip(fragments[|fragments| - 1]);
      IssueCount(init);
      var ss := Sentences(fragments);
      if s != [] {
        assert ss == Sentences(init) + [s];
        assert ss[..|ss| - 1] == Sentences(init);
      } else {
        assert ss == Sentences(init);
      }
    }
  }

  /** `grammar_issues_count <= 2 * (number of non-empty trimmed fragments)`. */
  lemma GrammarIssuesBound(text: string)
    ensures |GrammarIssues(text)| <= 2 * |Sentences(SplitOn(text, '.'))|
  {
    IssueCount(SplitOn(text, '.'));
  }

  /** A sentence checked by `grammar_check` never contains a `.`, so the
      punctuation message is drawn exactly when it ends in neither `!` nor `?`,
      and the capital message exactly when it starts with no capital. */
  lemma {:induction false} SentenceChecks(text: string, k: nat)
    requires k < |Sentences(SplitOn(text, '.'))|
    ensures var s := Sentences(SplitOn(text, '.'))[k];
      && s != [] && '.' !in s
      && (LacksPunctuation(s) <==> s[|s| - 1] != '!' && s[|s| - 1] != '?')
      && (LacksCapital(s) <==> !('A' <= s[0] <= 'Z'))
  {
    var fragments := SplitOn(text, '.');
    SentencesNonEmpty(fragments);
    SentencesAvoid(fragments, '.');
    var s := Sentences(fragments)[k];
    assert s[|s| - 1] in s;
  }

  /** Stripping adds no character. */
  lemma StripAvoids(s: string, c: char)
    requires c !in s
    ensures c !in Strip(s)
  {
    var r := Strip(s);
    var a := LeadingSpace(s);
    StripTrims(s);
    forall i | 0 <= i < |r| ensures r[i] != c {
      assert r[i] == s[a + i];
    }
  }

  /** A character absent from every fragment is absent from every sentence. */
  lemma {:induction false} SentencesAvoid(fragments: seq<string>, c: char)
    requires forall k :: 0 <= k < |fragments| ==> c !in fragments[k]
    ensures forall k :: 0 <= k < |Sentences(fragments)| ==> c !in Sentences(fragments)[k]
  {
    if fragments != [] {
      var init := fragments[..|fragments| - 1];
      SentencesAvoid(init, c);
      StripAvoids(fragments[|fragments| - 1], c);
    }
  }

  /** The messages for a text are those of its sentences, in order: the
      issues of `text` are the concatenation of the issues of its checked
      sentences. */
  lemma {:induction false} IssuesFollowSentences(fragments: seq<string>)
    ensures FragmentIssues(fragments) == SentenceIssuesOf(Sentences(fragments))
  {
    if fragments != [] {
      var init := fragments[..|fragments| - 1];
      var s := Strip(fragments[|fragments| - 1]);
      IssuesFollowSentences(init);
      var ss := Sentences(fragments);
      if s != [] {
        assert ss == Sentences(init) + [s];
        assert ss[..|ss| - 1] == Sentences(init);
      } else {
        assert ss == Sentences(init);
        assert FragmentIssues(fragments) == FragmentIssues(init) + [];
      }
    }
  }

  function SentenceIssuesOf(sentences: seq<string>): seq<string>
  {
    if sentences == [] then []
    else SentenceIssuesOf(sentences[..|sentences| - 1]) + SentenceIssues(sentences[|sentences| - 1])
  }

  /** A well-formed sentence closed by a period is still reported as missing
      punctuation: the split removes the period before the check sees it. */
  lemma PeriodSentenceFlagged(s: string)
    requires s != [] && '.' !in s
    requires !IsSpace(s[0]) && !IsSpace(s[|s| - 1])
    requires IsUpper(s[0]) && s[|s| - 1] != '!' && s[|s| - 1] != '?'
    ensures GrammarIssues(s + ".") == [PunctuationMessage(s)]
  {
    var none: string := [];
    SplitOnSeparator(s, '.', none);
    assert s + ['.'] + none == s + ".";
    SplitOnFree(none, '.');
    var fragments := SplitOn(s + ".", '.');
    assert fragments == [s, none];
    assert fragments[..1] == [s];
    StripTrimmed(s);
    StripTrimmed(none);
    assert SentenceIssues(s) == [PunctuationMessage(s)];
    assert FragmentIssues([s]) == FragmentIssues([]) + SentenceIssues(s);
    assert FragmentIssues(fragments) == FragmentIssues([s]) + SentenceIssues(none);
  }
}
