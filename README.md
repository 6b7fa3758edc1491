# Unique-word Shakespeare classifier, modelled in Dafny

The classifier decides whether a text is by Shakespeare by one number, its
*score*. The score is the fraction of the text's distinct words that occur in
a reference vocabulary of Shakespearean words. A text counts as Shakespeare's
when its score reaches a threshold. The program checks this rule on a
labelled corpus. The true label of each document comes from its file name:
the part before the first `.` must be `shakespeare`. The program reports one
accuracy for every threshold in a list.

The model covers the whole pipeline in six modules:

- `Text` (text.dfy) covers the string built-ins the pipeline relies on: the
  whitespace split, `lower`, `strip` of a character set, and `isalpha`.
- `Tokenizer` (tokenizer.dfy) covers `tokenize_text`. It has a pure
  specification, `Tokens`, and the loop itself, `TokenizeText`.
- `Scoring` (scoring.dfy) covers `calculate_shakespeare_score`.
- `Labels` (labels.dfy) covers `is_written_by_shakespeare`, including the
  `name` of a path.
- `Evaluation` (evaluation.dfy) covers `calculate_accuracy` and
  `compute_all_accuracies`. Each of their loops is a method proved against a
  specification function (`Accuracy`, `ActualLabels`, `Predictions`).
- `Outcome` (outcome.dfy) holds the `Result` type.

Scores and accuracies are exact rationals (`real`). The two divisions by zero
in the program become explicit failures. A text with no qualifying token has
no score (`DegenerateDocument`, line 80). An accuracy over zero predictions is
undefined (`EmptyCorpus`, line 109). Documents are in-memory `(path, text)`
pairs. The vocabulary is a sequence of words, as the loader returns it.

Policy on degenerate documents: the whole sweep fails, as the program does
when the division on line 80 raises. This happens even when the threshold
list is empty, because every document is scored before the threshold loop.
For an empty corpus, the model follows the code: with an empty corpus and at
least one threshold, the first accuracy divides by zero and the sweep fails
with `EmptyCorpus`; with an empty corpus and no threshold, no accuracy is
computed and the result is an empty list (`Evaluation.ComputeAllAccuracies`,
second clause).

## Model

| member | source | states |
|---|---|---|
| Text.Lower | unique-word-classifier.py:95 | `word.lower()` keeps the length, leaves no upper-case letter, keeps every character that is not upper-case, and maps each upper-case letter to the lower-case letter at the same place in the alphabet |
| Text.IsAlpha | unique-word-classifier.py:96 | `isalpha()`: the string is non-empty and every character is a letter |
| Text.Fragments | unique-word-classifier.py:94 | `text.split()` yields only non-empty fragments with no whitespace character |
| Text.RunsOfRun | unique-word-classifier.py:94 | a non-empty text without a separator splits into exactly itself |
| Text.RunsJoin | unique-word-classifier.py:94 | splitting `a + sep + b` gives the pieces of `a` followed by the pieces of `b` |
| Text.Strip | unique-word-classifier.py:95 | `strip(chars)` never lengthens and leaves a result that is empty or neither starts nor ends with a stripped character |
| Text.StripKeepsLowerCase | unique-word-classifier.py:95 | stripping a string without upper-case letters leaves one without them |
| Text.StripIsInfix | unique-word-classifier.py:95 | `strip` yields exactly the infix `s[i..j]` when everything outside it is stripped and its ends are not |
| Tokenizer.Clean | unique-word-classifier.py:95 | a cleaned fragment is no longer than the fragment, has no upper-case letter, and has no punctuation at either end |
| Tokenizer.TokensOf | unique-word-classifier.py:93-98 | at most one token per fragment |
| Tokenizer.TokensAreWords | unique-word-classifier.py:94-98 | every emitted token is non-empty and lower-case alphabetic (so it has no punctuation at either end) |
| Tokenizer.Tokens | unique-word-classifier.py:89-98 | the specification of `tokenize_text`: the cleaned fragments of the whitespace split that are alphabetic, in order |
| Tokenizer.TokenizeText | unique-word-classifier.py:89-98 | the loop returns exactly the specified token list, with no more tokens than fragments, each a lower-case word |
| Tokenizer.TokensOfStep | unique-word-classifier.py:94-97 | one more fragment appends its cleaned form when alphabetic, and nothing otherwise |
| Tokenizer.TokensOfAppend | unique-word-classifier.py:93-98 | tokens of concatenated fragment lists are the concatenated tokens, so input order is kept |
| Tokenizer.TokensJoin | unique-word-classifier.py:94-98 | tokens of two texts joined by whitespace are the tokens of the first followed by those of the second |
| Tokenizer.TokensOfWord | unique-word-classifier.py:94-97 | a whitespace-free text yields its cleaned form when alphabetic, and no token otherwise |
| Scoring.UniqueWords | unique-word-classifier.py:77 | `set(word_list)` is empty exactly when the list is |
| Scoring.UniqueWordsMembers | unique-word-classifier.py:77-78 | the set holds exactly the words that occur in the list |
| Scoring.Fraction | unique-word-classifier.py:80 | a count over a positive total at least as large is in [0, 1], 0 exactly for none and 1 exactly for all |
| Scoring.ShakespeareScore | unique-word-classifier.py:69-80 | fails with `DegenerateDocument` exactly when the text has no token, and otherwise lies in [0, 1] |
| Scoring.ScoreIsOverlapFraction | unique-word-classifier.py:74-80 | with a token, the score is the number of distinct tokens that are vocabulary words over the number of distinct tokens |
| Scoring.ScoreExtremes | unique-word-classifier.py:77-80 | the score is 0 exactly when no token is a vocabulary word, and 1 exactly when every token is |
| Scoring.EmptyVocabularyScoresZero | unique-word-classifier.py:78-80 | against an empty vocabulary every text with a token scores 0 |
| Scoring.ScoreDependsOnlyOnWordSet | unique-word-classifier.py:77-80 | texts with the same set of distinct tokens have the same score |
| Scoring.VocabularyMembersOnly | unique-word-classifier.py:78 | two vocabularies with the same members, whatever their order and repetitions, give every text the same score |
| Scoring.RepeatedWordsIgnored | unique-word-classifier.py:74-80 | appending words the text already contains changes no score |
| Scoring.ExampleFullOverlap | unique-word-classifier.py:69-80 | "Thou doth! Thou." against {thou, doth} scores 1 |
| Scoring.ExampleNoOverlap | unique-word-classifier.py:69-80 | "hello world" against {thou} scores 0 |
| Labels.LastName | unique-word-classifier.py:86 | the last component that is not ".", or empty, is never "." and is one of the components |
| Labels.LastNameAt | unique-word-classifier.py:86 | when every component from some position on is ".", the name is the component just before that position, or empty when there is none |
| Labels.BaseName | unique-word-classifier.py:86 | the `name` of a path contains no '/' and is never "." |
| Labels.FirstSegment | unique-word-classifier.py:86 | `split('.')[0]` is the prefix free of '.' that ends at the first '.' or the end |
| Labels.FirstSegmentAt | unique-word-classifier.py:86 | any '.'-free prefix ending at a '.' or the end is the first segment |
| Labels.IsWrittenByShakespeare | unique-word-classifier.py:82-87 | the label of a path: the part of its name before the first '.' is "shakespeare" (characterised by `LabelIsAuthorPrefix`) |
| Labels.LabelIsAuthorPrefix | unique-word-classifier.py:82-87 | the label is true exactly when the name is "shakespeare" or starts with "shakespeare.", case-sensitively |
| Labels.BaseNameOfJoin | unique-word-classifier.py:86 | a file name joined to any directory is its own `name` |
| Labels.ExamplePositiveLabel | unique-word-classifier.py:86 | ".../shakespeare.0350.txt" is labelled Shakespeare's |
| Labels.ExampleCapitalisedLabel | unique-word-classifier.py:86 | ".../Shakespeare.0350.txt" is not (case-sensitive) |
| Labels.ExampleLongerTokenLabel | unique-word-classifier.py:86 | ".../shakespeares.0001.txt" is not (the whole segment must match) |
| Evaluation.MatchCount | unique-word-classifier.py:105-108 | the agreement count below n is at most n |
| Evaluation.MatchCountIsAgreementCount | unique-word-classifier.py:105-108 | the count is the number of positions where the labels agree |
| Evaluation.MatchCountExtremes | unique-word-classifier.py:105-108 | the count is n exactly when all positions agree, and 0 exactly when none does |
| Evaluation.Accuracy | unique-word-classifier.py:104-110 | fails with `EmptyCorpus` exactly for no predictions; otherwise in [0, 1]; for equal lengths it is 1 exactly when the lists are equal and 0 exactly when every pair differs |
| Evaluation.AccuracyIsAgreementFraction | unique-word-classifier.py:104-110 | the accuracy is the number of agreeing pairs, up to the shorter list, over the number of predictions |
| Evaluation.CalculateAccuracy | unique-word-classifier.py:104-110 | the counting loop returns exactly `Accuracy` |
| Evaluation.AccuracyWhenAllPositive | unique-word-classifier.py:104-110 | predicting every document positive scores the fraction of documents that are Shakespeare's |
| Evaluation.ActualLabels | unique-word-classifier.py:117-120 | the specification of the labelling loop: the label of every document, in corpus order |
| Evaluation.Predictions | unique-word-classifier.py:133-138 | the specification of the prediction loop: every score compared with the threshold, in order |
| Evaluation.LabelDocuments | unique-word-classifier.py:117-120 | one label per document, in order, each the file-name test of that document |
| Evaluation.ScoreDocuments | unique-word-classifier.py:123-128 | on success one score per document, each that document's score; on failure some document has no score |
| Evaluation.PredictLabels | unique-word-classifier.py:133-138 | one prediction per score, positive exactly when the score reaches the threshold |
| Evaluation.AccuraciesAt | unique-word-classifier.py:131-141 | one accuracy per threshold, in order, each the accuracy of that threshold's predictions; fails exactly when there are no scores and at least one threshold |
| Evaluation.ComputeAllAccuracies | unique-word-classifier.py:113-143 | fails with `DegenerateDocument` exactly when some document has no score; fails with `EmptyCorpus` exactly for an empty corpus and a threshold; otherwise one accuracy in [0, 1] per threshold, in order, computed from the documents' own scores and labels |
| Evaluation.PredictionsMonotone | unique-word-classifier.py:135 | raising the threshold never turns a negative prediction positive, and never increases the number of positives |
| Evaluation.ExtremeThresholds | unique-word-classifier.py:133-138 | with real scores, a threshold of at most 0 predicts all documents positive and one above 1 predicts none |

## Left out

- `main` (lines 14-43) is left out: it prints, uses a fixed file index and reads a global.
- `load_shakespeare_words` (lines 47-56) and every `open`/`read` (lines 31 and 125-126) are file I/O. The vocabulary is a parameter and each document carries its text.
- `get_text_file_names` and the global `text_file_names` (lines 58-62, 101) glob the filesystem. The corpus is a parameter.
- The plotting statements after the `return` (lines 145-151) are unreachable, and line 147 is mis-indented. They are left out.
- The commented-out timing code (lines 158 onwards) and the complexity remark (lines 65-68) are left out; running time is not modelled.
- Scoring.ShakespeareScore: the division on line 80 is exact rational division, not floating point. The same holds for Evaluation.Accuracy (line 109) and for the thresholds `t/20` on line 35.
- Text.Lower: only ASCII letters are case-mapped. Text.IsAlpha accepts only ASCII letters. Text.IsSpace covers the ASCII whitespace and separator characters that `str.split` splits on. Unicode semantics are not modelled.
- Labels.BaseName: a path is split on '/' only, with empty and "." components skipped. Other separators and Windows drive letters are not modelled.
- Evaluation.ComputeAllAccuracies: the per-document scores appear only as a ghost result, which is how the contract names them. The method's real result is the list of accuracies, as in the program.
- Text.Fragments: its own contract states only that fragments are non-empty and whitespace-free; which fragments a text splits into is fixed by the lemmas `Text.RunsOfRun` and `Text.RunsJoin`.
- Labels.LastName: its own contract states only that the name is not "." and is a component; that it is the last such component is the lemma `Labels.LastNameAt`.
