/**
 * Keyword evaluation of a profile text: which of the fixed action and
 * technology keywords occur in the text (case-insensitively, as substrings),
 * the capped keyword score, and the feedback string.
 */
module Keywords {
  import opened Strings
  import opened Seqs

  const ActionKeywords: seq<string> := [
    "achieved", "managed", "developed", "led", "improved",
    "implemented", "increased", "decreased", "optimized",
    "collaborated", "resolved", "created", "spearheaded"
  ]

  const TechKeywords: seq<string> := [
    "Python", "Kafka", "Spark", "SQL", "MongoDB", "Flask",
    "machine learning", "AI", "computer vision", "ETL", "data pipelines",
    "Google Earth Engine"
  ]

  /** The list the matcher walks: action keywords, then technology keywords. */
  const AllKeywords: seq<string> := ActionKeywords + TechKeywords

  /** The score never exceeds this cap. */
  const ScoreCap: nat := 10

  const NoKeySkills: string := "No key skills detected"

  /** `kw.lower() in text.lower()` */
  predicate Matches(kw: string, text: string)
  {
    Contains(Lower(kw), Lower(text))
  }

  lemma AllKeywordsDistinct()
    ensures |AllKeywords| == 25
    ensures NoDup(AllKeywords)
  {
  }

  lemma AllKeywordsInitials()
    ensures forall k :: k in AllKeywords ==> |k| > 0 && k[0] != 'N' && ',' !in k
  {
  }

  /** The keywords of `kws` that occur in `text`, in the order of `kws`. */
  function MatchIn(kws: seq<string>, text: string): (r: seq<string>)
    ensures forall k :: k in r <==> k in kws && Matches(k, text)
    ensures IsSubsequence(r, kws)
  {
    if kws == [] then []
    else if Matches(kws[0], text) then [kws[0]] + MatchIn(kws[1..], text)
    else
      assert forall k :: k in kws && k != kws[0] ==> k in kws[1..];
      MatchIn(kws[1..], text)
  }

  /** `keywords_found`: every listed keyword occurring in the text, in list order. */
  function KeywordsFound(text: string): (r: seq<string>)
    ensures forall k :: k in r <==> k in AllKeywords && Matches(k, text)
    ensures IsSubsequence(r, AllKeywords)
    ensures NoDup(r)
    ensures |r| <= |AllKeywords| == 25
  {
    AllKeywordsDistinct();
    var r := MatchIn(AllKeywords, text);
    SubsequenceNoDup(r, AllKeywords);
    SubsequenceLength(r, AllKeywords);
    r
  }

  /** `keyword_score`: the number of distinct keywords found, capped at 10. */
  function KeywordScore(text: string): (score: nat)
    ensures score <= ScoreCap
    ensures score == Min(ScoreCap, |KeywordsFound(text)|)
    ensures score == 0 <==> KeywordsFound(text) == []
  {
    var found := KeywordsFound(text);
    NoDupSetSize(found);
    Min(ScoreCap, |ToSet(found)|)
  }

  /**
   * `order` lists the distinct found keywords once each, in the (unspecified)
   * order in which iterating over `set(keywords_found)` yields them.
   */
  predicate Enumerates(order: seq<string>, found: seq<string>)
  {
    NoDup(order) && (forall k :: k in order ==> k in found) && (forall k :: k in found ==> k in order)
  }

  /**
   * `keyword_feedback`: the distinct found keywords joined by ", ", or the
   * fallback. Its ", "-separated pieces are exactly the found keywords.
   */
  function KeywordFeedback(text: string, order: seq<string>): (r: string)
    requires Enumerates(order, KeywordsFound(text))
    ensures r == NoKeySkills <==> KeywordsFound(text) == []
    ensures forall k :: k in KeywordsFound(text) ==> Contains(k, r)
    ensures r != NoKeySkills ==> Split(r) == order
    ensures r != NoKeySkills ==> forall k :: k in Split(r) <==> k in KeywordsFound(text)
  {
    var found := KeywordsFound(text);
    if found == [] then NoKeySkills
    else
      var r := Join(ListSeparator, order);
      FeedbackFacts(found, order);
      r
  }

  lemma FeedbackFacts(found: seq<string>, order: seq<string>)
    requires found != [] && Enumerates(order, found)
    requires forall k :: k in found ==> k in AllKeywords
    ensures Join(ListSeparator, order) != NoKeySkills
    ensures forall k :: k in found ==> Contains(k, Join(ListSeparator, order))
    ensures Split(Join(ListSeparator, order)) == order
  {
    AllKeywordsInitials();
    assert found[0] in order;
    var r := Join(ListSeparator, order);
    assert order[0] in AllKeywords;
    assert r[0] == r[..|order[0]|][0] == order[0][0];
    assert NoKeySkills[0] == 'N';
    forall k | k in found ensures Contains(k, r) {
      var i :| 0 <= i < |order| && order[i] == k;
      JoinContainsParts(ListSeparator, order, i);
    }
    SplitJoin(order);
  }

  /**
   * Substring semantics: the keyword 'AI' is found inside "maintained" and
   * 'led' inside "skilled".
   */
  lemma SubstringMatches()
    ensures "AI" in KeywordsFound("maintained")
    ensures "led" in KeywordsFound("skilled")
    ensures KeywordScore("maintained skilled") >= 2
  {
    assert OccursAt(Lower("AI"), Lower("maintained"), 1);
    assert OccursAt(Lower("led"), Lower("skilled"), 4);
    assert OccursAt(Lower("AI"), Lower("maintained skilled"), 1);
    assert OccursAt(Lower("led"), Lower("maintained skilled"), 15);
    var found := KeywordsFound("maintained skilled");
    assert "AI" in found && "led" in found;
    SubsetSize({"AI", "led"}, ToSet(found));
  }

  /** Filtering by a weaker condition keeps everything a stronger one keeps. */
  lemma {:induction false} MatchInMonotone(kws: seq<string>, t: string, u: string)
    requires NoDup(kws)
    requires forall k :: k in kws && Matches(k, t) ==> Matches(k, u)
    ensures IsSubsequence(MatchIn(kws, t), MatchIn(kws, u))
  {
    if kws != [] {
      assert NoDup(kws[1..]) by {
        forall i, j | 0 <= i < j < |kws[1..]| ensures kws[1..][i] != kws[1..][j] {
          assert kws[1..][i] == kws[i + 1] && kws[1..][j] == kws[j + 1];
        }
      }
      MatchInMonotone(kws[1..], t, u);
      var rt, ru := MatchIn(kws[1..], t), MatchIn(kws[1..], u);
      if !Matches(kws[0], t) && Matches(kws[0], u) {
        assert kws[0] !in kws[1..];
        assert rt == [] || rt[0] != kws[0];
        assert IsSubsequence(rt, [kws[0]] + ru);
      }
    }
  }

  /**
   * Monotonicity: whatever is found in a text is found in any text containing
   * it, in the same order, so the score can only grow.
   */
  lemma KeywordsMonotone(t: string, u: string)
    requires Contains(t, u)
    ensures IsSubsequence(KeywordsFound(t), KeywordsFound(u))
    ensures forall k :: k in KeywordsFound(t) ==> k in KeywordsFound(u)
    ensures KeywordScore(t) <= KeywordScore(u)
  {
    AllKeywordsDistinct();
    ContainsLower(t, u);
    forall k | k in AllKeywords && Matches(k, t) ensures Matches(k, u) {
      ContainsTransitive(Lower(k), Lower(t), Lower(u));
    }
    MatchInMonotone(AllKeywords, t, u);
    SubsequenceLength(KeywordsFound(t), KeywordsFound(u));
  }
}
