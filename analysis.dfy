/**
 * The report assembled for one profile text: grammar issues, the spelling
 * count and advice, the keywords found with their score and feedback, and the
 * fixed grammar tip. The word list, the sentence list and the spell-checker
 * come from the NLP libraries and are inputs here.
 */
module Analysis {
  import Keywords
  import Spelling
  import Grammar

  const GrammarTip: string := "Aim for active voice and remove weak, short sentences unless used for emphasis."

  datatype Report = Report(
    grammarIssues: string,
    spellingErrors: nat,
    spellingAdvice: string,
    keywordsFound: seq<string>,
    keywordScore: nat,
    keywordFeedback: string,
    grammarTip: string)

  /**
   * `analyze_linkedin_profile` without the sentiment part. `feedbackOrder` is
   * the order in which the set of found keywords is iterated when joined.
   */
  method AnalyzeProfile(text: string, words: seq<string>, sents: seq<Grammar.Sentence>,
                        oracle: Spelling.Oracle, feedbackOrder: seq<string>)
    returns (report: Report)
    requires Keywords.Enumerates(feedbackOrder, Keywords.KeywordsFound(text))
    ensures Grammar.DescribesGrammar(report.grammarIssues, Grammar.ShortCount(sents), Grammar.PassiveCount(sents))
    ensures report.spellingErrors == |Spelling.CorrectionsOf(words, oracle)| <= |words|
    ensures report.spellingAdvice == Spelling.SpellingMessage(report.spellingErrors)
    ensures report.keywordsFound == Keywords.KeywordsFound(text)
    ensures report.keywordScore == Keywords.KeywordScore(text) <= Keywords.ScoreCap
    ensures report.keywordFeedback == Keywords.KeywordFeedback(text, feedbackOrder)
    ensures report.grammarTip == GrammarTip
  {
    var grammarIssues := Grammar.GrammarIssues(sents);
    var corrections := Spelling.FindCorrections(words, oracle);
    var spellingCount := |corrections|;
    var found := Keywords.KeywordsFound(text);
    report := Report(
      grammarIssues,
      spellingCount,
      Spelling.SpellingMessage(spellingCount),
      found,
      Keywords.KeywordScore(text),
      Keywords.KeywordFeedback(text, feedbackOrder),
      GrammarTip);
  }
}
