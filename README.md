# LinkedIn profile analyzer: scoring and message logic

The analyzer takes the text of an uploaded profile and builds a scorecard.
Most of that work is done by NLP libraries. This project models the part that
the program decides for itself:

- **Keywords** (`keywords.dfy`): a fixed list of 13 action keywords and 12
  technology keywords. Each one is tested for case-insensitive substring
  containment in the text. The result is the list of found keywords, in list
  order; a score equal to the number of distinct keywords found, capped at 10;
  and a feedback string that joins the distinct found keywords with `", "`, or
  says `"No key skills detected"`.
- **Spelling** (`spelling.dfy`): a loop over the words of the text. It skips a
  word that matches `^https?://|.*@.*\..*`. It asks the spell-checker about
  every other word. It records a correction, keeping at most three
  suggestions, when the best suggestion differs from the word ignoring case.
  The number of corrections then selects one of three advice messages.
- **Grammar** (`grammar.dfy`): a sentence is "very short" when its stripped
  text has fewer than 8 characters. It is "passive" when one of its tokens has
  the dependency label `auxpass`. The grammar-issues string holds the
  short-sentence warning and the passive warning, each only when its count is
  positive, joined by `", "`, or else `"No major grammar issues"`.
- **Report** (`analysis.dfy`): the record that collects these fields with the
  fixed grammar tip.
- `strings.dfy` holds the Python string builtins these parts use. They are
  `str.lower` (ASCII letters), `str.strip` (every character `str.isspace`
  accepts), the `in` substring test, `str.join` with `str.split` as its
  inverse, and `f"{n}"` for a natural number with its inverse. `seqs.dfy`
  holds the list helpers (`set(list)`, duplicate-freedom, subsequences,
  counting), and `wrappers.dfy` the `Option` type.

The NLP libraries become inputs. The tokenizer's word list and the parser's
sentences, with their dependency labels, are sequences. The spell-checker is
an oracle: a function from a word to `Raised` (it threw an exception, so the
word is skipped) or to its list of suggested words, best first.

The skip test follows the regular expression exactly. In Python's `re`, `.`
does not match a newline. So a word is skipped by the second alternative only
when it has an `@`, then later a `.`, and no newline up to that `.`.
`Spelling.SkipTestOnTokens` shows that, for a word without newlines, this is
the same as "contains an `@` followed somewhere later by a `.`".
`Spelling.SkipTestRejects` exhibits the newline case.

## Model

| member | source | states |
|---|---|---|
| `Strings.Lower` | profile_analyze.py:32 | lower-casing keeps the length and maps each character on its own: capital ASCII letters to their small letters, everything else unchanged |
| `Strings.Strip` | profile_analyze.py:58 | the stripped text is empty iff the text is all whitespace; otherwise it neither starts nor ends with whitespace |
| `Strings.StripIsSlice` | profile_analyze.py:58 | stripping removes only whitespace, and only from the two ends: the result is a contiguous slice with whitespace on both sides |
| `Strings.StripIdempotent` | profile_analyze.py:58 | stripping twice gives the same string as stripping once |
| `Strings.Join` | profile_analyze.py:66 | a non-empty join starts with its first part, which is therefore a substring of it |
| `Strings.JoinContainsParts` | profile_analyze.py:91 | every part of a `", ".join` occurs as a substring of the joined string |
| `Strings.SplitJoin` | profile_analyze.py:91 | splitting a `", ".join` of parts that contain no comma gives the parts back |
| `Strings.NatToString` | profile_analyze.py:63 | the decimal rendering of a count is non-empty, all digits, and has no leading zero |
| `Strings.ParseNatToString` | profile_analyze.py:74 | reading the decimal rendering of a count gives the count back |
| `Strings.ParseNatInverse` | profile_analyze.py:74 | a string that parses as a count is exactly the decimal rendering of that count, so no other spelling (such as a leading zero) is read back |
| `Keywords.Matches` | profile_analyze.py:89 | `kw.lower() in text.lower()`; its substring behaviour is shown by `Keywords.SubstringMatches` and its monotonicity by `Keywords.KeywordsMonotone` |
| `Keywords.MatchIn` | profile_analyze.py:89 | the filtered list holds exactly the listed keywords that match, in list order |
| `Keywords.KeywordsFound` | profile_analyze.py:79-89 | a keyword is in `keywords_found` iff it is one of the 25 listed keywords and its lower-case form is a substring of the lower-cased text; the list keeps list order (action keywords, then technology keywords), has no duplicates and at most 25 entries |
| `Keywords.KeywordScore` | profile_analyze.py:90 | the score is at most 10, equals `min(10, number of distinct keywords found)`, and is 0 iff nothing was found |
| `Keywords.KeywordFeedback` | profile_analyze.py:91 | for any duplicate-free ordering of the found keywords, the feedback is `"No key skills detected"` iff nothing was found; otherwise splitting it at `", "` gives back exactly that ordering, so its pieces are exactly the found keywords, each once |
| `Keywords.KeywordsMonotone` | profile_analyze.py:89-90 | if text `t` is a substring of text `u`, the keywords found in `t` are a subsequence of those found in `u`, and the score of `t` is at most the score of `u` |
| `Keywords.SubstringMatches` | profile_analyze.py:89 | substring semantics: `AI` is found in "maintained", `led` in "skilled", and the two together score at least 2 |
| `Spelling.IsLinkOrEmail` | profile_analyze.py:28 | `re.match` of the skip pattern; its meaning is given by `Spelling.SkipTestMeaning` |
| `Spelling.AtThenDotFromMeaning` | profile_analyze.py:28 | the left-to-right scan for `.*@.*\..*` succeeds iff there is a `.` after an `@` with no newline up to that `.` |
| `Spelling.SkipTestMeaning` | profile_analyze.py:28 | a word is skipped iff it starts with `http://` or `https://`, or has an `@` and a later `.` with no newline up to the `.` |
| `Spelling.SkipTestOnTokens` | profile_analyze.py:28 | for a word without newlines: skipped iff it has a web scheme, or an `@` followed later by a `.` |
| `Spelling.SkipTestAccepts` | profile_analyze.py:28-29 | an `https://` address and an e-mail address are skipped |
| `Spelling.SkipTestRejects` | profile_analyze.py:28-29 | a word whose only `.` precedes the `@` is not skipped, and neither is one with a newline between the `@` and the `.` |
| `Spelling.Review` | profile_analyze.py:28-36 | a skipped word or a raising checker yields no correction; a correction is for the word itself and keeps one to three suggestions |
| `Spelling.ReviewIffAdmissible` | profile_analyze.py:28-36 | one word yields a correction exactly when the word is not skipped, the checker answered, the top suggestion differs ignoring case, and the correction keeps the first `min(3, n)` suggestions |
| `Spelling.CorrectionsOf` | profile_analyze.py:26-39 | the corrections list has at most as many entries as there are words |
| `Spelling.CorrectionsAdmissible` | profile_analyze.py:28-36 | every correction is for a non-skipped word, has 1 to 3 suggestions taken from the front of the checker's list (three when it offered three or more), and its first suggestion differs from the word ignoring case |
| `Spelling.CorrectionsWhenCheckerRaises` | profile_analyze.py:31-38 | when the spell-checker raises for every word, the corrections list is empty |
| `Spelling.CorrectionsOfAppend` | profile_analyze.py:27 | handling two word lists one after the other gives the concatenation of their corrections |
| `Spelling.CorrectionsFollowWords` | profile_analyze.py:26-39 | the corrected words are a subsequence of the input words, in the same order, and a word is corrected iff it is in the input and the per-word test flags it |
| `Spelling.FindCorrections` | profile_analyze.py:24-39 | the loop with its two `continue`s and its `append` builds exactly the corrections list described by `CorrectionsOf` |
| `Spelling.SpellingMessage` | profile_analyze.py:70-76 | the message is "No spelling issues found." iff the count is 0; it starts "Minor spelling issues (" iff the count is 1 or 2; it starts "Multiple spelling issues (" iff the count is 3 or more |
| `Spelling.MessageRoundTrip` | profile_analyze.py:70-76 | the count can be read back out of the message |
| `Spelling.MessageDetermined` | profile_analyze.py:70-76 | a string with the bucket prefixes `SpellingMessage` promises for a count, and from which that count reads back, is exactly the message for that count |
| `Spelling.MessageInjective` | profile_analyze.py:70-76 | different counts produce different messages |
| `Grammar.IsShort` | profile_analyze.py:58 | the stripped text is shorter than 8 characters; `Grammar.ShortIgnoresPadding` shows surrounding whitespace does not matter |
| `Grammar.IsPassive` | profile_analyze.py:59 | some token carries the dependency label `auxpass` |
| `Grammar.ShortCount` | profile_analyze.py:58 | the number of very short sentences is at most the number of sentences; it is 0 iff no sentence is short, and equals the number of sentences iff all are short |
| `Grammar.PassiveCount` | profile_analyze.py:59 | the same for sentences with an `auxpass` token |
| `Grammar.ShortIgnoresPadding` | profile_analyze.py:58 | whitespace around a sentence's text does not change whether it is very short |
| `Grammar.ShortWarning` | profile_analyze.py:63 | the warning is the count's digits followed by " very short sentence(s)", and the count reads back from those digits |
| `Grammar.PassiveWarning` | profile_analyze.py:65 | the warning is the count's digits followed by " passive construction(s)", and the count reads back from those digits |
| `Grammar.IssuesDetermineCounts` | profile_analyze.py:61-66 | whatever string the warning assembly produces for two counts, both counts can be read back from it |
| `Grammar.GrammarIssues` | profile_analyze.py:58-66 | the issues string is the short warning (if any short sentence), then the passive warning (if any passive sentence), joined by ", "; it is "No major grammar issues" iff no sentence is short and none is passive |
| `Analysis.AnalyzeProfile` | profile_analyze.py:58-103 | the report's grammar issues, spelling count and advice, keywords, score, feedback and tip are the values the parts above describe; the spelling count is at most the number of words and the score at most 10 |

## Left out

- PDF extraction and the temporary file it saves and removes (profile_analyze.py:12-20): file-system I/O and a PDF library.
- The web route, request handling and HTML template (profile_analyze.py:107-255): web plumbing and rendering.
- The sentiment label, score and advice (profile_analyze.py:46-55): they depend on a floating-point polarity computed by a library.
- The tokenizer, the sentence splitter, the dependency labels and the spell-checker: these are inputs and an oracle. The model does not relate the word and sentence lists to the text. The oracle is a pure function, so it gives the same answer every time it is asked about a word. Suggestion confidences are dropped, because only the suggested words are used. The oracle is general; the call as written would make it raise for every word (see "## Findings").
- `Strings.Lower`: ASCII case folding only. Python's `str.lower` also folds non-ASCII letters, so for such text the keyword match and the suggestion comparison can differ from the model.
- `Keywords.KeywordFeedback`: the program joins a Python `set`, whose iteration order is unspecified. The model takes that order as a parameter. It may be any duplicate-free listing of the found keywords, so the model constrains nothing beyond that.
- `Grammar.ShortCount`: the program keeps the stripped texts of the short sentences, but only their number is used. The model keeps only the number. The same goes for `Grammar.PassiveCount`.

## Findings

| source | as written | input that shows it | evidently intended | confidence | as-written member | corrected member |
|---|---|---|---|---|---|---|
| profile_analyze.py:31 | the suggestions come from `blob.word_spellcheck(word)`; TextBlob's documented API has no such method on a blob, so each call raises `AttributeError` and the bare `except` at :37 skips the word | any profile text with a word that is not a link or address | ask the word itself, `Word(word).spellcheck()`, whose `(word, confidence)` pairs fit `suggestions[0][0]` | not executed; rests on TextBlob's API, which is not part of this model | `Spelling.CorrectionsWhenCheckerRaises` | `Spelling.FindCorrections` |
