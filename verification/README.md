# Phishing keyword scorer

This is a Dafny model of the keyword scorer of a voice-phishing detector. A
call is transcribed to text and the transcript is scored against a list of
phishing keywords:

- the text is cut into sentences at every `'.'`;
- a sentence is flagged when, ignoring case, at least one keyword occurs in it
  as a substring. The keywords are tried in order and the search stops at the
  first match, so a sentence counts once however many keywords it contains;
- the result is the number of flagged sentences, the number of sentences, and
  the flagged share as a percentage (0 when there are no sentences).

The model has two modules:

- `PyStr` (`pystr.dfy`) models the three Python string builtins the scorer
  relies on:
  - `str.split` with a one-character separator, checked against `Join` and a
    count of separators;
  - `str.lower`, on ASCII letters;
  - the substring test `needle in hay`, checked against an explicit
    occurrence index.
- `Phishing` (`phishing.dfy`) holds the scorer itself:
  - `CheckForPhishingWords` is an imperative method with the source's nested
    loops and early `break`;
  - it is proved against the specification functions `Flagged`,
    `CountFlagged` and `Percentage`;
  - lemmas state what the score means and how it behaves as the keywords and
    the text vary, plus a worked example.

Python's `"".split('.')` returns `[""]`, so an empty transcript has one
(empty) sentence, not zero. A text ending in `'.'` also has a trailing empty
sentence, and that sentence counts towards the total. As a result the
`else 0` branch of the percentage cannot be reached from the scorer. The
model still keeps it in `Percentage`.

## Model

| member | source | states |
|---|---|---|
| PyStr.LowerChar | backend/openai.py:38 | An upper-case ASCII letter maps to the lower-case letter 32 code points above it; every other character is unchanged |
| PyStr.Lower | backend/openai.py:38 | `s.lower()` has the same length as `s` and lower-cases each character in place |
| PyStr.LowerIdempotent | backend/openai.py:38 | Lower-casing twice gives the same text as lower-casing once |
| PyStr.Split | backend/openai.py:33-34 | `text.split('.')` has one more fragment than there are separators in the text, and no fragment contains the separator |
| PyStr.JoinSplit | backend/openai.py:33 | Joining the fragments with the separator gives back the original text, so no character is lost or reordered |
| PyStr.SplitJoin | backend/openai.py:33 | Splitting the join of separator-free fragments gives back exactly those fragments, so a split is determined by its fragments |
| PyStr.SplitLower | backend/openai.py:33-38 | For a separator that is not a letter, lower-casing and splitting commute: both give the same number of fragments, with matching lower-cased contents |
| PyStr.ContainsIff | backend/openai.py:38 | `needle in hay` holds if and only if `needle` occurs in `hay` at some index |
| PyStr.Contains | backend/openai.py:38 | `needle in hay`: the empty needle is in every text, and a needle that is found is no longer than the text. ContainsIff gives its full meaning |
| Phishing.Matches | backend/openai.py:38 | `word.lower() in sentence.lower()`, the test the inner loop runs: the empty keyword matches every sentence, and a matching keyword is no longer than the sentence. MatchesIff gives its full meaning |
| Phishing.Flagged | backend/openai.py:37-40 | The outcome of the inner loop with its `break`: some keyword matches the sentence. Every sentence is flagged when the empty string is a keyword, and none is when the keyword list is empty. CountFlaggedAppend and CheckForPhishingWords tie it to the loop |
| Phishing.MatchesIff | backend/openai.py:38 | `word.lower() in sentence.lower()` holds if and only if some slice of the sentence equals the keyword up to case |
| Phishing.CountFlagged | backend/openai.py:36-40 | The number of flagged sentences never exceeds the number of sentences |
| Phishing.CountFlaggedAppend | backend/openai.py:36-40 | A further sentence adds 1 to the count if some keyword matches it, and 0 otherwise; each sentence counts at most once |
| Phishing.CountFlaggedIsCardinality | backend/openai.py:36-40 | The count equals the number of indices whose sentence has a matching keyword |
| Phishing.AllFlaggedIff | backend/openai.py:36-40 | The count equals the number of sentences if and only if every sentence has a matching keyword |
| Phishing.NoKeywordsNoneFlagged | backend/openai.py:37-40 | With an empty keyword list no sentence is counted |
| Phishing.EmptyKeywordFlagsAll | backend/openai.py:37-40 | If the empty string is a keyword, every sentence is counted |
| Phishing.MoreKeywordsNoFewerFlagged | backend/openai.py:37-40 | Adding keywords never lowers the count |
| Phishing.SameKeywordsSameFlag | backend/openai.py:37-38 | Two keyword lists with the same lower-cased keywords flag the same sentences; order, duplicates and case of the keywords do not matter |
| Phishing.SameKeywordsSameCount | backend/openai.py:36-40 | Two keyword lists with the same lower-cased keywords give the same count |
| Phishing.CountFlaggedUpToCase | backend/openai.py:36-40 | Sentence lists that agree up to case give the same count |
| Phishing.Percentage | backend/openai.py:42 | The percentage is 0 when there are no sentences; otherwise it times the total equals 100 times the count. It lies within 0..100 when the count is at most the total, is 100 exactly when every sentence is counted, and is 0 exactly when none is |
| Phishing.CheckForPhishingWords | backend/openai.py:30-43 | The total is the number of `'.'` in the text plus one. The count is the number of split sentences in which some keyword occurs, ignoring case, and never exceeds the total. The percentage is `Percentage` of the two and lies within 0..100 |
| Phishing.FullAndZeroScore | backend/openai.py:30-43 | A transcript scores 100 percent if and only if every sentence has a keyword, and 0 percent if and only if none has |
| Phishing.NoKeywordsScoreZero | backend/openai.py:30-43 | With no keywords every transcript scores 0 flagged sentences and 0 percent |
| Phishing.CaseInsensitiveScore | backend/openai.py:30-43 | Two transcripts that differ only in letter case have the same number of sentences and the same count |
| Phishing.SplitEdgeCases | backend/openai.py:33-34 | The empty text is one empty sentence, and a text ending in `'.'` has an empty last sentence |
| Phishing.CaseInsensitiveExample | backend/openai.py:38 | The keyword "urgent" matches the sentence "URGENT" |
| Phishing.SubstringExample | backend/openai.py:38 | The keyword "win" matches inside "winner", because matching is by substring, not by whole word |
| Phishing.ExampleSplit | backend/openai.py:33 | "Please verify your account. This is a normal sentence. Urgent action needed." splits into the three sentences and a trailing empty one |
| Phishing.WorkedExample | backend/openai.py:30-43 | For that transcript and the keywords "verify" and "urgent", there are 4 sentences, 2 are counted and the score is 50 percent |

## Left out

- `convert_mp3_to_wav` and `speech_to_text` (backend/openai.py:5-22) are audio decoding, speech recognition and file writing in external libraries. The scorer receives the transcript as a parameter instead.
- `load_phishing_words` (backend/openai.py:24-28) reads a JSON file. The keyword list is a parameter of the scorer, assumed to hold strings only.
- The module-level script (backend/openai.py:45-66) is file paths, the `if transcript_text:` guard and printing. It is I/O and is not modelled.
- Phishing.Percentage: an exact real ratio stands in for Python's floating-point division, so rounding is not modelled. The printed two-decimal formatting is not modelled either.
- Phishing.Percentage: Python's `else 0` yields the integer `0` rather than a float. The model uses `0.0`, and that branch cannot be reached from the scorer anyway.
- PyStr.Lower: only ASCII letters are lower-cased. Python's full Unicode case mapping (for example characters whose lower-case form is longer) is not modelled.
