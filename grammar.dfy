/**
 * The grammar heuristics: count the very short sentences and the sentences
 * with a passive auxiliary, and assemble the grammar-issues string from those
 * two counts.
 *
 * Sentence splitting and dependency labelling belong to the NLP parser; here a
 * sentence is its text together with the dependency labels of its tokens.
 */
module Grammar {
  import opened Wrappers
  import opened Strings
  import opened Seqs

  datatype Sentence = Sentence(text: string, depLabels: seq<string>)

  /** A sentence whose stripped text is shorter than this is "very short". */
  const ShortLimit: nat := 8
  const PassiveLabel: string := "auxpass"

  const NoMajorGrammarIssues: string := "No major grammar issues"
  const ShortSuffix: string := " very short sentence(s)"
  const PassiveSuffix: string := " passive construction(s)"

  predicate IsShort(s: Sentence)
  {
    |Strip(s.text)| < ShortLimit
  }

  /** Some token of the sentence carries the passive-auxiliary label. */
  predicate IsPassive(s: Sentence)
  {
    PassiveLabel in s.depLabels
  }

  /** `len(short_sents)` */
  function ShortCount(sents: seq<Sentence>): (n: nat)
    ensures n <= |sents|
    ensures n == 0 <==> forall i :: 0 <= i < |sents| ==> !IsShort(sents[i])
    ensures n == |sents| <==> forall i :: 0 <= i < |sents| ==> IsShort(sents[i])
  {
    CountIf(sents, IsShort)
  }

  /** `len(passive_sents)` */
  function PassiveCount(sents: seq<Sentence>): (n: nat)
    ensures n <= |sents|
    ensures n == 0 <==> forall i :: 0 <= i < |sents| ==> !IsPassive(sents[i])
    ensures n == |sents| <==> forall i :: 0 <= i < |sents| ==> IsPassive(sents[i])
  {
    CountIf(sents, IsPassive)
  }

  /** Surrounding whitespace does not change whether a sentence is short. */
  lemma ShortIgnoresPadding(text: string, labels: seq<string>)
    ensures IsShort(Sentence(text, labels)) == IsShort(Sentence(Strip(text), labels))
  {
    StripIdempotent(text);
  }

  /** `f"{n} very short sentence(s)"`: the count reads back from its leading digits. */
  function ShortWarning(n: nat): (w: string)
    ensures ParseNat(w[..LeadingDigits(w)]) == Some(n) && w[LeadingDigits(w)..] == ShortSuffix
  {
    WarningShape(n, ShortSuffix, "");
    ParseNatToString(n);
    assert NatToString(n) + ShortSuffix + "" == NatToString(n) + ShortSuffix;
    NatToString(n) + ShortSuffix
  }

  /** `f"{n} passive construction(s)"`: the count reads back from its leading digits. */
  function PassiveWarning(n: nat): (w: string)
    ensures ParseNat(w[..LeadingDigits(w)]) == Some(n) && w[LeadingDigits(w)..] == PassiveSuffix
  {
    WarningShape(n, PassiveSuffix, "");
    ParseNatToString(n);
    assert NatToString(n) + PassiveSuffix + "" == NatToString(n) + PassiveSuffix;
    NatToString(n) + PassiveSuffix
  }

  /**
   * What the grammar-issues string says for the two counts: the warnings that
   * apply, short sentences first, joined by ", ", or the fallback when none do.
   */
  ghost predicate DescribesGrammar(issues: string, nShort: nat, nPassive: nat)
  {
    && (nShort == 0 && nPassive == 0 ==> issues == NoMajorGrammarIssues)
    && (nShort > 0 && nPassive == 0 ==> issues == ShortWarning(nShort))
    && (nShort == 0 && nPassive > 0 ==> issues == PassiveWarning(nPassive))
    && (nShort > 0 && nPassive > 0 ==> issues == ShortWarning(nShort) + ListSeparator + PassiveWarning(nPassive))
  }

  /** Reads the two counts back out of a grammar-issues string. */
  function CountsInIssues(issues: string): Option<(nat, nat)>
  {
    if issues == NoMajorGrammarIssues then Some((0, 0))
    else
      var n := LeadingDigits(issues);
      var rest := issues[n..];
      match ParseNat(issues[..n])
      case None => None
      case Some(first) =>
        if rest == ShortSuffix then Some((first, 0))
        else if rest == PassiveSuffix then Some((0, first))
        else if StartsWith(rest, ShortSuffix + ListSeparator) then
          var tail := rest[|ShortSuffix + ListSeparator|..];
          var m := LeadingDigits(tail);
          match ParseNat(tail[..m])
          case None => None
          case Some(second) => if tail[m..] == PassiveSuffix then Some((first, second)) else None
        else None
  }

  /** A warning string starts with the digits of its count, then the given suffix. */
  lemma WarningShape(n: nat, suffix: string, after: string)
    requires suffix != [] && suffix[0] == ' '
    ensures var w := NatToString(n) + suffix + after;
            LeadingDigits(w) == |NatToString(n)|
            && w[..|NatToString(n)|] == NatToString(n)
            && w[|NatToString(n)|..] == suffix + after
            && w != NoMajorGrammarIssues
  {
    var d := NatToString(n);
    LeadingDigitsOf(d, suffix + after);
    assert d + suffix + after == d + (suffix + after);
    var w := d + suffix + after;
    assert w[0] == d[0];
    assert IsDigit(w[0]) && !IsDigit(NoMajorGrammarIssues[0]);
  }

  lemma ShortOnlyRoundTrip(nShort: nat)
    requires nShort > 0
    ensures CountsInIssues(ShortWarning(nShort)) == Some((nShort, 0))
  {
    ParseNatToString(nShort);
    WarningShape(nShort, ShortSuffix, "");
    assert ShortWarning(nShort) == NatToString(nShort) + ShortSuffix + "";
  }

  lemma PassiveOnlyRoundTrip(nPassive: nat)
    requires nPassive > 0
    ensures CountsInIssues(PassiveWarning(nPassive)) == Some((0, nPassive))
  {
    ParseNatToString(nPassive);
    WarningShape(nPassive, PassiveSuffix, "");
    assert PassiveWarning(nPassive) == NatToString(nPassive) + PassiveSuffix + "";
    assert PassiveSuffix != ShortSuffix;
  }

  lemma AfterShortWarning(tail: string)
    requires tail != [] && IsDigit(tail[0])
    ensures var rest := ShortSuffix + (ListSeparator + tail);
            rest != ShortSuffix && rest != PassiveSuffix
            && StartsWith(rest, ShortSuffix + ListSeparator)
            && rest[|ShortSuffix + ListSeparator|..] == tail
  {
    var rest := ShortSuffix + (ListSeparator + tail);
    assert rest == (ShortSuffix + ListSeparator) + tail;
    assert |rest| > |ShortSuffix| && rest[1] == 'v' && PassiveSuffix[1] == 'p';
  }

  lemma BothRoundTrip(nShort: nat, nPassive: nat)
    requires nShort > 0 && nPassive > 0
    ensures CountsInIssues(ShortWarning(nShort) + ListSeparator + PassiveWarning(nPassive)) == Some((nShort, nPassive))
  {
    ParseNatToString(nShort);
    ParseNatToString(nPassive);
    var tail := PassiveWarning(nPassive);
    var issues := ShortWarning(nShort) + ListSeparator + tail;
    WarningShape(nShort, ShortSuffix, ListSeparator + tail);
    assert issues == NatToString(nShort) + ShortSuffix + (ListSeparator + tail);
    WarningShape(nPassive, PassiveSuffix, "");
    assert tail == NatToString(nPassive) + PassiveSuffix + "";
    assert tail[0] == NatToString(nPassive)[0];
    AfterShortWarning(tail);
  }

  /** The grammar-issues string determines both counts. */
  lemma IssuesDetermineCounts(issues: string, nShort: nat, nPassive: nat)
    requires DescribesGrammar(issues, nShort, nPassive)
    ensures CountsInIssues(issues) == Some((nShort, nPassive))
  {
    if nShort > 0 && nPassive == 0 {
      ShortOnlyRoundTrip(nShort);
    } else if nShort == 0 && nPassive > 0 {
      PassiveOnlyRoundTrip(nPassive);
    } else if nShort > 0 && nPassive > 0 {
      BothRoundTrip(nShort, nPassive);
    }
  }

  /** `grammar_issues`: the warnings are appended one by one, then joined. */
  method GrammarIssues(sents: seq<Sentence>) returns (issues: string)
    ensures DescribesGrammar(issues, ShortCount(sents), PassiveCount(sents))
    ensures issues == NoMajorGrammarIssues <==>
              forall i :: 0 <= i < |sents| ==> !IsShort(sents[i]) && !IsPassive(sents[i])
  {
    var nShort := ShortCount(sents);
    var nPassive := PassiveCount(sents);
    var warnings: seq<string> := [];
    if nShort > 0 {
      warnings := warnings + [ShortWarning(nShort)];
    }
    if nPassive > 0 {
      warnings := warnings + [PassiveWarning(nPassive)];
    }
    if warnings != [] {
      issues := Join(ListSeparator, warnings);
    } else {
      issues := NoMajorGrammarIssues;
    }
    assert nShort > 0 && nPassive > 0 ==> Join(ListSeparator, warnings) == warnings[0] + ListSeparator + warnings[1];
    IssuesDetermineCounts(issues, nShort, nPassive);
  }
}
