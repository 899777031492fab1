/**
 * The spelling pass: walk the words of the text, skip anything that looks
 * like a web address or an e-mail address, ask the spell-checker about the
 * rest and keep a correction when its best suggestion is a different word;
 * then the advice message chosen from the number of corrections.
 *
 * The spell-checker is an oracle from a word to its answer; an answer may be
 * that the checker raised an exception, which makes the pass skip the word.
 */
module Spelling {
  import opened Wrappers
  import opened Strings
  import opened Seqs

  /** The spell-checker's answer for one word: it raised, or it returned its suggestions, best first. */
  datatype Check = Raised | Suggested(candidates: seq<string>)

  type Oracle = string -> Check

  /** One entry of the corrections list: the word and at most three suggestions. */
  datatype Correction = Correction(word: string, suggestions: seq<string>)

  const MaxSuggestions: nat := 3

  // ---------------------------------------------------------------------
  // The skip test `re.match(r'^https?://|.*@.*\..*', word)`
  // ---------------------------------------------------------------------

  /** First alternative: the word starts with `http://` or `https://`. */
  predicate HasWebScheme(w: string)
  {
    StartsWith(w, "http://") || StartsWith(w, "https://")
  }

  /**
   * Second alternative, `.*@.*\..*` anchored at the start, as a left-to-right
   * scan: `seenAt` records whether an '@' has been passed. The regex `.` does
   * not match a newline, so a newline before the '.' ends the attempt.
   */
  predicate AtThenDotFrom(w: string, seenAt: bool)
    decreases |w|
  {
    if w == [] then false
    else if w[0] == '\n' then false
    else if seenAt && w[0] == '.' then true
    else AtThenDotFrom(w[1..], seenAt || w[0] == '@')
  }

  /** `True` exactly when the regex matches at the start of `word`, so the word is skipped. */
  predicate IsLinkOrEmail(word: string)
  {
    HasWebScheme(word) || AtThenDotFrom(word, false)
  }

  /** A '.' at position `j`, no newline up to it, and an '@' before it (or one already passed). */
  ghost predicate DotAfterAt(w: string, seenAt: bool, j: int)
  {
    0 <= j < |w| && w[j] == '.' && (forall k :: 0 <= k <= j ==> w[k] != '\n')
    && (seenAt || exists i :: 0 <= i < j && w[i] == '@')
  }

  lemma {:induction false} AtThenDotFromMeaning(w: string, seenAt: bool)
    ensures AtThenDotFrom(w, seenAt) <==> exists j :: DotAfterAt(w, seenAt, j)
    decreases |w|
  {
    if w == [] {
    } else if w[0] == '\n' {
      forall j ensures !DotAfterAt(w, seenAt, j) {
        assert w[0] == '\n';
      }
    } else if seenAt && w[0] == '.' {
      assert DotAfterAt(w, seenAt, 0);
    } else {
      var t, s := w[1..], seenAt || w[0] == '@';
      AtThenDotFromMeaning(t, s);
      if AtThenDotFrom(t, s) {
        var j :| DotAfterAt(t, s, j);
        assert forall k :: 1 <= k <= j + 1 ==> w[k] == t[k - 1];
        if !seenAt {
          if w[0] == '@' {
            assert 0 < j + 1 && w[0] == '@';
          } else {
            var i :| 0 <= i < j && t[i] == '@';
            assert w[i + 1] == '@';
          }
        }
        assert DotAfterAt(w, seenAt, j + 1);
      }
      forall j | DotAfterAt(w, seenAt, j) ensures AtThenDotFrom(t, s) {
        assert j >= 1;
        assert forall k :: 0 <= k <= j - 1 ==> t[k] == w[k + 1];
        if !s {
          var i :| 0 <= i < j && w[i] == '@';
          assert i != 0;
          assert t[i - 1] == '@';
        }
        assert DotAfterAt(t, s, j - 1);
      }
    }
  }

  /**
   * What the skip test accepts, stated declaratively: a web scheme at the
   * start, or an '@' followed later by a '.' with no newline up to that '.'.
   */
  lemma SkipTestMeaning(w: string)
    ensures IsLinkOrEmail(w) <==>
      HasWebScheme(w)
      || exists i, j :: 0 <= i < j < |w| && w[i] == '@' && w[j] == '.'
                        && forall k :: 0 <= k <= j ==> w[k] != '\n'
  {
    AtThenDotFromMeaning(w, false);
    if AtThenDotFrom(w, false) {
      var j :| DotAfterAt(w, false, j);
      var i :| 0 <= i < j && w[i] == '@';
      assert 0 <= i < j < |w| && w[i] == '@' && w[j] == '.';
    }
    forall i, j | 0 <= i < j < |w| && w[i] == '@' && w[j] == '.'
                  && (forall k :: 0 <= k <= j ==> w[k] != '\n')
      ensures AtThenDotFrom(w, false)
    {
      assert DotAfterAt(w, false, j);
    }
  }

  /** For a word without newlines (as the tokenizer produces) the skip test is "scheme, or '@' then '.'". */
  lemma SkipTestOnTokens(w: string)
    requires forall k :: 0 <= k < |w| ==> w[k] != '\n'
    ensures IsLinkOrEmail(w) <==>
      HasWebScheme(w) || exists i, j :: 0 <= i < j < |w| && w[i] == '@' && w[j] == '.'
  {
    SkipTestMeaning(w);
  }

  /** A profile URL and an e-mail address are skipped. */
  lemma SkipTestAccepts()
    ensures IsLinkOrEmail("https://in.com")
    ensures IsLinkOrEmail("jo@x.io")
  {
    assert "https://in.com"[..8] == "https://";
    SkipTestMeaning("jo@x.io");
    assert "jo@x.io"[2] == '@' && "jo@x.io"[4] == '.';
  }

  /** A '.' only before the '@' does not count, and neither does a newline before the '.'. */
  lemma SkipTestRejects()
    ensures !IsLinkOrEmail("a.b@c")
    ensures !IsLinkOrEmail("a@\nb.c")
  {
    assert !StartsWith("a.b@c", "http://") && !StartsWith("a.b@c", "https://");
    assert !StartsWith("a@\nb.c", "http://") && !StartsWith("a@\nb.c", "https://");
    SkipTestMeaning("a.b@c");
    SkipTestMeaning("a@\nb.c");
    assert "a@\nb.c"[2] == '\n';
  }

  // ---------------------------------------------------------------------
  // One word
  // ---------------------------------------------------------------------

  /** What the pass makes of one word, given the checker's answer for it. */
  function Review(word: string, check: Check): (r: Option<Correction>)
    ensures IsLinkOrEmail(word) || check.Raised? ==> r.None?
    ensures r.Some? ==> r.value.word == word && 1 <= |r.value.suggestions| <= MaxSuggestions
  {
    if IsLinkOrEmail(word) then None
    else match check
      case Raised => None
      case Suggested(s) =>
        if s != [] && Lower(s[0]) != Lower(word)
        then Some(Correction(word, s[..Min(MaxSuggestions, |s|)]))
        else None
  }

  /**
   * A correction the pass may record for `c.word`: the word is not a link or
   * address, the checker answered, and the correction carries its first one to
   * three suggestions, of which the first differs from the word ignoring case.
   */
  ghost predicate Admissible(c: Correction, oracle: Oracle)
  {
    && !IsLinkOrEmail(c.word)
    && oracle(c.word).Suggested?
    && 1 <= |c.suggestions| <= MaxSuggestions
    && |c.suggestions| == Min(MaxSuggestions, |oracle(c.word).candidates|)
    && c.suggestions == oracle(c.word).candidates[..|c.suggestions|]
    && Lower(c.suggestions[0]) != Lower(c.word)
  }

  /** A word yields a correction exactly when that correction is admissible. */
  lemma ReviewIffAdmissible(c: Correction, oracle: Oracle)
    ensures Review(c.word, oracle(c.word)) == Some(c) <==> Admissible(c, oracle)
  {
  }

  lemma ReviewSound(word: string, oracle: Oracle)
    ensures var o := Review(word, oracle(word));
            o.Some? ==> o.value.word == word && Admissible(o.value, oracle)
  {
  }

  // ---------------------------------------------------------------------
  // The whole word list
  // ---------------------------------------------------------------------

  function Emitted(o: Option<Correction>): seq<Correction>
  {
    match o
    case None => []
    case Some(c) => [c]
  }

  /** The corrections list the pass builds for `words`. */
  function CorrectionsOf(words: seq<string>, oracle: Oracle): (r: seq<Correction>)
    ensures |r| <= |words|
  {
    if words == [] then []
    else Emitted(Review(words[0], oracle(words[0]))) + CorrectionsOf(words[1..], oracle)
  }

  /**
   * A checker that raises for every word leaves the list empty: the bare
   * `except` turns each failure into `continue`.
   */
  lemma {:induction false} CorrectionsWhenCheckerRaises(words: seq<string>, oracle: Oracle)
    requires forall w :: oracle(w) == Raised
    ensures CorrectionsOf(words, oracle) == []
  {
    if words != [] {
      CorrectionsWhenCheckerRaises(words[1..], oracle);
      assert Review(words[0], oracle(words[0])) == None;
    }
  }

  /**
   * Every recorded correction is admissible: its word is not a link or address,
   * it keeps one to three suggestions from the front of the checker's list, and
   * the first of them differs from the word ignoring case.
   */
  lemma {:induction false} CorrectionsAdmissible(words: seq<string>, oracle: Oracle)
    ensures forall c :: c in CorrectionsOf(words, oracle) ==> Admissible(c, oracle)
  {
    if words != [] {
      CorrectionsAdmissible(words[1..], oracle);
      ReviewSound(words[0], oracle);
    }
  }

  function WordsOf(cs: seq<Correction>): (ws: seq<string>)
    ensures |ws| == |cs|
    ensures forall i :: 0 <= i < |cs| ==> ws[i] == cs[i].word
  {
    if cs == [] then [] else [cs[0].word] + WordsOf(cs[1..])
  }

  lemma {:induction false} CorrectionsOfAppend(a: seq<string>, b: seq<string>, oracle: Oracle)
    ensures CorrectionsOf(a + b, oracle) == CorrectionsOf(a, oracle) + CorrectionsOf(b, oracle)
  {
    if a != [] {
      assert (a + b)[0] == a[0];
      assert (a + b)[1..] == a[1..] + b;
      CorrectionsOfAppend(a[1..], b, oracle);
      var e := Emitted(Review(a[0], oracle(a[0])));
      assert CorrectionsOf(a + b, oracle) == e + CorrectionsOf(a[1..] + b, oracle);
      assert CorrectionsOf(a, oracle) == e + CorrectionsOf(a[1..], oracle);
    } else {
      assert a + b == b;
    }
  }

  /**
   * Order: the corrected words are a subsequence of the input words, and a
   * word carries a correction exactly when the pass flags it.
   */
  lemma {:induction false} CorrectionsFollowWords(words: seq<string>, oracle: Oracle)
    ensures IsSubsequence(WordsOf(CorrectionsOf(words, oracle)), words)
    ensures forall w :: w in WordsOf(CorrectionsOf(words, oracle)) <==>
              w in words && Review(w, oracle(w)).Some?
  {
    if words != [] {
      CorrectionsFollowWords(words[1..], oracle);
      var o := Review(words[0], oracle(words[0]));
      var rest := CorrectionsOf(words[1..], oracle);
      if o.Some? {
        assert WordsOf(CorrectionsOf(words, oracle)) == [words[0]] + WordsOf(rest) by {
          assert CorrectionsOf(words, oracle) == [o.value] + rest;
          assert ([o.value] + rest)[1..] == rest;
        }
      } else {
        var ws := WordsOf(rest);
        assert CorrectionsOf(words, oracle) == rest;
        if ws != [] {
          assert ws[0] in ws;
          assert ws[0] != words[0];
        }
      }
      assert forall w :: w in words <==> w == words[0] || w in words[1..];
    }
  }

  /** `spelling`: the loop over the words, skipping and appending as it goes. */
  method FindCorrections(words: seq<string>, oracle: Oracle) returns (corrections: seq<Correction>)
    ensures corrections == CorrectionsOf(words, oracle)
  {
    corrections := [];
    var i := 0;
    while i < |words|
      invariant 0 <= i <= |words|
      invariant corrections == CorrectionsOf(words[..i], oracle)
    {
      var word := words[i];
      ghost var step := Emitted(Review(word, oracle(word)));
      assert words[..i + 1] == words[..i] + [word];
      assert [word][1..] == [];
      CorrectionsOfAppend(words[..i], [word], oracle);
      assert CorrectionsOf(words[..i + 1], oracle) == corrections + step;
      if IsLinkOrEmail(word) {
        assert step == [];
        i := i + 1;
        continue;
      }
      var check := oracle(word);
      if check.Raised? {
        assert step == [];
        i := i + 1;
        continue;
      }
      var suggestions := check.candidates;
      if |suggestions| > 0 && Lower(suggestions[0]) != Lower(word) {
        assert step == [Correction(word, suggestions[..Min(MaxSuggestions, |suggestions|)])];
        corrections := corrections + [Correction(word, suggestions[..Min(MaxSuggestions, |suggestions|)])];
      } else {
        assert step == [];
      }
      i := i + 1;
    }
    assert words[..|words|] == words;
  }

  // ---------------------------------------------------------------------
  // The spelling advice message
  // ---------------------------------------------------------------------

  const NoSpellingIssues: string := "No spelling issues found."
  const MinorPrefix: string := "Minor spelling issues ("
  const MinorSuffix: string := ") detected."
  const MultiplePrefix: string := "Multiple spelling issues ("
  const MultipleSuffix: string := "). Consider revising."

  /** `spelling_msg` for a number of corrections. */
  function SpellingMessage(count: nat): (msg: string)
    ensures msg == NoSpellingIssues <==> count == 0
    ensures StartsWith(msg, MinorPrefix) <==> 1 <= count < 3
    ensures StartsWith(msg, MultiplePrefix) <==> 3 <= count
  {
    if count == 0 then
      assert NoSpellingIssues[1] == 'o' && MinorPrefix[1] == 'i' && MultiplePrefix[1] == 'u';
      NoSpellingIssues
    else if count < 3 then
      var m := MinorPrefix + NatToString(count) + MinorSuffix;
      assert m[..|MinorPrefix|] == MinorPrefix;
      assert m[1] == 'i' && NoSpellingIssues[1] == 'o' && MultiplePrefix[1] == 'u';
      m
    else
      var m := MultiplePrefix + NatToString(count) + MultipleSuffix;
      assert m[..|MultiplePrefix|] == MultiplePrefix;
      assert m[1] == 'u' && NoSpellingIssues[1] == 'o' && MinorPrefix[1] == 'i';
      m
  }

  predicate Framed(msg: string, prefix: string, suffix: string)
  {
    |prefix| + |suffix| <= |msg| && msg[..|prefix|] == prefix && msg[|msg| - |suffix|..] == suffix
  }

  /** Reads the count back out of an advice message. */
  function CountInMessage(msg: string): Option<nat>
  {
    if msg == NoSpellingIssues then Some(0)
    else if Framed(msg, MinorPrefix, MinorSuffix) then
      ParseNat(msg[|MinorPrefix|..|msg| - |MinorSuffix|])
    else if Framed(msg, MultiplePrefix, MultipleSuffix) then
      ParseNat(msg[|MultiplePrefix|..|msg| - |MultipleSuffix|])
    else None
  }

  /** The message determines the count: reading it back gives the count. */
  lemma MessageRoundTrip(count: nat)
    ensures CountInMessage(SpellingMessage(count)) == Some(count)
  {
    var msg := SpellingMessage(count);
    var digits := NatToString(count);
    ParseNatToString(count);
    if 1 <= count < 3 {
      assert msg == MinorPrefix + digits + MinorSuffix;
      assert msg[|msg| - |MinorSuffix|..] == MinorSuffix;
      assert msg[|MinorPrefix|..|msg| - |MinorSuffix|] == digits;
    } else if count >= 3 {
      assert msg == MultiplePrefix + digits + MultipleSuffix;
      assert msg[..|MinorPrefix|] != MinorPrefix by {
        assert msg[1] == 'u';
      }
      assert msg[|msg| - |MultipleSuffix|..] == MultipleSuffix;
      assert msg[|MultiplePrefix|..|msg| - |MultipleSuffix|] == digits;
    }
  }

  /**
   * The message is pinned down by its count: a string with the bucket
   * prefixes of `SpellingMessage` that reads back as `count` is that message.
   */
  lemma MessageDetermined(count: nat, msg: string)
    requires msg == NoSpellingIssues <==> count == 0
    requires StartsWith(msg, MinorPrefix) <==> 1 <= count < 3
    requires StartsWith(msg, MultiplePrefix) <==> 3 <= count
    requires CountInMessage(msg) == Some(count)
    ensures msg == SpellingMessage(count)
  {
    if 1 <= count < 3 {
      assert Framed(msg, MinorPrefix, MinorSuffix);
      var digits := msg[|MinorPrefix|..|msg| - |MinorSuffix|];
      ParseNatInverse(digits, count);
      assert msg == msg[..|MinorPrefix|] + digits + msg[|msg| - |MinorSuffix|..];
    } else if 3 <= count {
      assert !Framed(msg, MinorPrefix, MinorSuffix);
      assert Framed(msg, MultiplePrefix, MultipleSuffix);
      var digits := msg[|MultiplePrefix|..|msg| - |MultipleSuffix|];
      ParseNatInverse(digits, count);
      assert msg == msg[..|MultiplePrefix|] + digits + msg[|msg| - |MultipleSuffix|..];
    }
  }

  /** Different counts give different messages. */
  lemma MessageInjective(m: nat, n: nat)
    requires SpellingMessage(m) == SpellingMessage(n)
    ensures m == n
  {
    MessageRoundTrip(m);
    MessageRoundTrip(n);
  }
}
