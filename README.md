# ReviewClassifier in Dafny

This project models the lexicon-based sentiment classifier `ReviewClassifier`.

- The classifier loads a positive and a negative word list from lexicon files.
- It classifies every `.txt` review in a folder by counting the lexicon words among the review's tokens. A review is positive when it has strictly more positive hits than negative hits.
- For each folder it records how many reviews the folder holds and how many of them were classified as the folder's own polarity.
- A report turns those counters into correct and misclassified figures.

The model has three modules, one per file:

- `Tokenizer` (`tokenizer.dfy`): how one line becomes tokens.
  - Every literal `<br />` becomes a space. Matches go left to right and do not overlap.
  - Every ASCII punctuation character (`\p{Punct}`) becomes a space.
  - The line is split with Java's `String.split("\\s+")`. Here whitespace is the space and the characters `'\t'` through `'\r'`.
  - The split is stated exactly:
    - `""` gives `[""]`.
    - A non-empty all-whitespace line gives no token.
    - Trailing empty strings are dropped.
    - A leading empty string is kept when the line starts with whitespace and a word follows. A line of whitespace only gives no token at all, even after normalisation: `" "` and `"!!!"` give none.
- `Scoring` (`scoring.dfy`): what the classifier computes, as functions.
  - The positive and negative hit counts of a token sequence. Positive lookup comes first.
  - The verdict on one document.
  - The tally of a folder: entries whose name contains `.txt` anywhere, and how many of them came out positive and negative.
- `Classifier` (`classifier.dfy`): the object itself, modelled imperatively.
  - `WordSet` is the `HashSet<String>` that lexicon loading adds to in place.
  - `ReviewClassifier` holds the two dictionaries and the four integer counters. Its methods mirror the Java loops and are proved against the `Scoring` functions.
  - `Valid()` is the object invariant:
    - the two dictionaries are distinct objects;
    - they hold only non-empty, non-comment lines;
    - `0 <= correctPosCount <= posFilesCount` and `0 <= correctNegCount <= negFilesCount`.
  - The constructor establishes `Valid()` and every method preserves it.

Files and folders are passed in as values:

- a lexicon file or a review is its sequence of lines;
- a folder is the sequence of its entries, each a name with the lines of the file.

Where the documented design and the code disagree, the model follows the code:

- **No lower-casing.** `text.toLowerCase()` (`ReviewClassifier.java:183`) discards its result, so the string that is split keeps its letter case and lexicon matching is case-sensitive. `Scoring.SingleWordVerdict` states it: a one-word review is positive exactly when that very word, case included, is in the positive lexicon. `Tokenizer.TokensSpaced` shows that tokens come back with their case unchanged.
- **No trimming of lexicon lines.** `readInWords` (`ReviewClassifier.java:83-88`) adds each kept line exactly as read. A line with surrounding blanks is a different dictionary word, and a line holding only blanks is kept.
- **Leading empty token.** Java's split keeps a leading `""` when a line starts with whitespace or punctuation and a word follows. The model keeps it too (`Tokenizer.SplitSpaced`, `Tokenizer.TokensSpaced`). It can never hit, because `Valid()` guarantees that neither dictionary holds `""` (`Classifier.KeptLinesIsLexicon`, `Scoring.MissCountsNothing`).

## Model

| member | source | states |
|---|---|---|
| Tokenizer.ReplaceBreaks | ReviewClassifier.java:181 | replacing `<br />` (six characters) by one space never lengthens the line |
| Tokenizer.ReplaceBreaksSplice | ReviewClassifier.java:181 | a `<br />` after text with no `<br />` in it is replaced by exactly one space, and replacement goes on after it |
| Tokenizer.ReplaceBreaksIdentity | ReviewClassifier.java:181 | a line with no `<br />` anywhere passes through unchanged |
| Tokenizer.ReplacePunct | ReviewClassifier.java:182 | replacing punctuation character by character keeps the line's length |
| Tokenizer.ReplacePunctSpec | ReviewClassifier.java:182 | every `\p{Punct}` character becomes a space, every other character stays where it was, and no punctuation is left |
| Tokenizer.ReplacePunctAppend | ReviewClassifier.java:182 | punctuation replacement of two stretches of a line is the replacement of each, one after the other |
| Tokenizer.CleanLineUnchanged | ReviewClassifier.java:181-182 | a line without punctuation is unchanged by both replacements |
| Tokenizer.Pieces | ReviewClassifier.java:185 | a string splits around its whitespace runs into at least one and at most one more piece than it has characters |
| Tokenizer.PiecesAfterWord | ReviewClassifier.java:185 | a whitespace-free piece followed by a whitespace run is one piece and splitting goes on after the run; an empty first piece is a line that starts with whitespace |
| Tokenizer.Split | ReviewClassifier.java:185 | at most one more token than characters, and the last token of a non-empty line is never empty (trailing empty strings are dropped) |
| Tokenizer.Tokens | ReviewClassifier.java:180-185 | a line gives at most one more token than it has characters |
| Tokenizer.SplitConcat | ReviewClassifier.java:185 | split keeps every non-whitespace character, in order, and drops all whitespace |
| Tokenizer.SplitShape | ReviewClassifier.java:185 | Java split shape: no token holds whitespace, only the first can be empty; the first is empty iff the line is empty or starts with whitespace before some word; no tokens at all iff a non-empty line is all whitespace |
| Tokenizer.SplitTokensShape | ReviewClassifier.java:185 | tokens contain no whitespace and every token after the first is non-empty |
| Tokenizer.SplitEmpty | ReviewClassifier.java:185 | split yields no token exactly when a non-empty line is all whitespace |
| Tokenizer.SplitNoPunct | ReviewClassifier.java:182-185 | splitting a punctuation-free line yields punctuation-free tokens |
| Tokenizer.SplitSpaced | ReviewClassifier.java:185 | splitting non-empty whitespace-free words separated by any non-empty whitespace runs gives the words back; a run before the first word adds one leading `""`, a run after the last adds nothing |
| Tokenizer.TokensSpaced | ReviewClassifier.java:180-185 | words without whitespace or punctuation, separated by any whitespace runs, tokenise back to exactly those words, letter case included, with a leading `""` only when whitespace comes first |
| Tokenizer.TokensAcrossBreak | ReviewClassifier.java:180-185 | punctuation followed by `<br />` between two words separates them like a space: "Great!<br />Really" gives "Great" and "Really" |
| Tokenizer.TokensClean | ReviewClassifier.java:180-185 | no token of any line holds whitespace or punctuation, and only the first token can be empty |
| Scoring.PositiveHits | ReviewClassifier.java:187-192 | at most one positive hit per token |
| Scoring.NegativeHits | ReviewClassifier.java:187-197 | at most one negative hit per token |
| Scoring.ClassifiedPositive | ReviewClassifier.java:203 | a review classified positive has at least one positive hit |
| Scoring.HitsBounded | ReviewClassifier.java:187-197 | each token raises at most one counter, so positive + negative hits never exceed the token count |
| Scoring.HitsAppend | ReviewClassifier.java:187-197 | hit counts over two stretches of tokens add up |
| Scoring.OverlapCountsPositive | ReviewClassifier.java:189-196 | a token in the positive lexicon is one positive hit and never a negative one, even when it is also in the negative lexicon |
| Scoring.MissCountsNothing | ReviewClassifier.java:189-196 | a token in neither lexicon changes neither counter |
| Scoring.SharedNegativeWordsIgnored | ReviewClassifier.java:189-196 | because positive lookup comes first, negative words shared with the positive lexicon never count |
| Scoring.SharedWordsDoNotChangeVerdict | ReviewClassifier.java:189-203 | removing the shared words from the negative lexicon changes no verdict |
| Scoring.NoHits | ReviewClassifier.java:187-197 | tokens outside both lexicons give zero hits on both sides |
| Scoring.NoLexiconWordIsNegative | ReviewClassifier.java:203 | a document without any lexicon word, including an empty one, is a 0-0 tie and is classified negative |
| Scoring.DocTokensSnoc | ReviewClassifier.java:178-185 | the tokens of a review with one more line are its tokens so far followed by that line's tokens |
| Scoring.DocTokensAppend | ReviewClassifier.java:178-200 | the tokens of a document are those of its first lines followed by those of the remaining lines |
| Scoring.HitsNextLine | ReviewClassifier.java:178-200 | reading one more line adds that line's positive and negative hits to the counters |
| Scoring.OneLineOfWords | ReviewClassifier.java:178-185 | a one-line review of words separated by whitespace runs has exactly those words as its tokens, after one `""` when the line starts with whitespace |
| Scoring.OneLineVerdict | ReviewClassifier.java:187-203 | a one-line review of words separated by whitespace runs is positive iff its words have more positive than negative hits, when the line starts with a word or neither lexicon holds `""` |
| Scoring.SingleWordVerdict | ReviewClassifier.java:183-203 | a one-word review is positive iff that exact word, case included, is in the positive lexicon |
| Scoring.MajorityExamples | ReviewClassifier.java:203 | with g positive and b negative only, whatever whitespace runs separate them: "g g b" is positive (2 > 1), "b b g" is negative (1 < 2) and "g b" is negative (tie) |
| Scoring.IsReviewFile | ReviewClassifier.java:126 | a name that contains ".txt" has at least four characters |
| Scoring.EntryTally | ReviewClassifier.java:126-139 | an entry counts once iff its name contains ".txt", and then counts as positive iff its review is classified positive, otherwise as negative |
| Scoring.FolderTallyNext | ReviewClassifier.java:124-142 | scanning one more entry adds that entry's tally |
| Scoring.FolderTallyBalanced | ReviewClassifier.java:124-142 | every counted entry is classified once, so total == positive + negative, both non-negative and at most the listing's length |
| Scoring.FolderTallyCountsReviewFiles | ReviewClassifier.java:124-128 | the total is exactly the number of entries whose name contains ".txt" |
| Scoring.FolderTallyAppend | ReviewClassifier.java:124-142 | the tally of a listing is the sum of the tallies of its two parts |
| Scoring.FolderTallyOrderIndependent | ReviewClassifier.java:124-142 | listings with the same entries in any order give the same tally |
| Scoring.ReviewFileNames | ReviewClassifier.java:126 | ".txt" may occur anywhere in the name: "notes.txt.bak" counts, "notes.md" and "subdir" do not |
| Classifier.IsEntryLine | ReviewClassifier.java:84 | a line is kept iff it is non-empty, does not start with ";" and is not "", the three tests of the source |
| Classifier.KeptLinesNext | ReviewClassifier.java:81-88 | reading one more line adds it exactly when it is kept |
| Classifier.KeptLinesAtMostOnePerLine | ReviewClassifier.java:81-88 | a file of n lines adds at most n words |
| Classifier.KeptLinesMembers | ReviewClassifier.java:81-88 | a word is in the loaded dictionary iff it is a line of the file that is non-empty and does not start with ';' |
| Classifier.KeptLinesIsLexicon | ReviewClassifier.java:84 | a loaded dictionary never holds the empty string or a ';' comment |
| Classifier.KeptLinesAppend | ReviewClassifier.java:81-88 | loading a file in two parts gives the union of both parts' words |
| Classifier.KeptLinesSameLines | ReviewClassifier.java:81-88 | the dictionary depends only on which lines occur, not on their order or repetition |
| Classifier.KeptLinesTwice | ReviewClassifier.java:81-88 | loading the same file twice gives the same words as loading it once |
| Classifier.WordSet.constructor | ReviewClassifier.java:16-20 | a new dictionary is empty |
| Classifier.WordSet.Add | ReviewClassifier.java:87 | adding a word leaves the set as before plus that word |
| Classifier.ReviewClassifier.constructor | ReviewClassifier.java:16-37 | two fresh empty dictionaries and four zero counters, and the invariant holds |
| Classifier.ReviewClassifier.ReadInWords | ReviewClassifier.java:76-91 | the dictionary becomes its old words plus the file's non-empty non-comment lines; the invariant is kept |
| Classifier.ReviewClassifier.ClassifyReview | ReviewClassifier.java:167-205 | the loop's verdict is exactly the verdict function on the review's lines and the current dictionaries |
| Classifier.ReviewClassifier.CountHits | ReviewClassifier.java:187-197 | the token loop adds exactly the positive and the negative hits of the tokens to the counters |
| Classifier.ReviewClassifier.ClassifyReviews | ReviewClassifier.java:102-155 | for the target polarity, reviews counted = ".txt" entries and correct = total - wrongly classified = classified as target; the report's misclassified figure is the wrongly classified count; the other polarity's counters are unchanged; the invariant is kept |
| Classifier.ReviewClassifier.Report | ReviewClassifier.java:211-238 | the integer report figures: correct + misclassified = reviews per polarity and overall, sums across polarities; under the invariant misclassified counts lie between 0 and the review counts |

## Left out

- File access is not modelled: `File`, `Scanner`, `IOException` and the path built from the folder and the file separator. Lexicon files and reviews are passed in as their lines, and a folder as its listing.
- How `Scanner.nextLine` recognises line terminators is not modelled; the lines are given.
- A folder that cannot be listed, where `File.list()` returns `null`, is not modelled. Neither is an entry named like `x.txt` that is itself a directory, for which the source's `classifyReview` fails while opening it.
- `readInFiles` (`ReviewClassifier.java:51-65`), the driver that loads both lexicons and classifies both folders, is not modelled, nor its console output. Each step it takes is modelled as its own method.
- The console output of `outputResult` is not modelled, and neither are its floating-point accuracy percentages, including NaN for an empty folder. The integer figures it prints are modelled by `Report`.
- The `groundTruth` and `classification` strings in `classifyReviews` are assigned but never read, so they are not modelled.
- The unused `javax.sound.midi.Soundbank` import has no behaviour to model.
- Java's regular-expression engine in general is not modelled. Only the two fixed replacement patterns and the `\s+` split are stated, character by character.
- Classifier.ReviewClassifier.ClassifyReviews: the counters are unbounded integers. 32-bit wrap-around after 2^31 files is not modelled.
- Classifier.ReviewClassifier.ClassifyReview: the per-review hit counters `positive` and `negative` (`ReviewClassifier.java:169-170`) are Java `int`s; here they are unbounded, so wrap-around after 2^31 hits in one review is not modelled.
- Classifier.ReviewClassifier.CountHits: the increments `positive++` and `negative++` (`ReviewClassifier.java:191`, `ReviewClassifier.java:195`) are unbounded here; 32-bit wrap-around is not modelled.
- Classifier.ReviewClassifier.ReadInWords: requires the dictionary to be one of the classifier's own two, the only way the private source method is ever called.
- Scoring.MajorityExamples: stated for any positive word and any negative word that are not in the positive lexicon, rather than for the lexicons {"great","good"} and {"bad","terrible"}, which are one instance.
