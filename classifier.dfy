/**
 * The ReviewClassifier object: two word dictionaries filled from lexicon
 * files, four counters filled by classifying two folders of reviews, and
 * the figures of the final report. Files are given as their lines and a
 * folder as its listing, so no file is opened here.
 */
module Classifier {
  import opened Tokenizer
  import opened Scoring

  // ---------------------------------------------------------------------------
  // Lexicon files

  /** Java's `s.startsWith(prefix)`. */
  predicate StartsWith(s: string, prefix: string) {
    |prefix| <= |s| && s[..|prefix|] == prefix
  }

  /**
   * A lexicon line that becomes a dictionary word: not empty and not a
   * ';' comment. The line is taken as it is, without trimming.
   */
  predicate IsEntryLine(line: string)
    ensures IsEntryLine(line) <==> |line| != 0 && !StartsWith(line, ";") && line != ""
  {
    line != [] && line[0] != ';'
  }

  /** The words a lexicon file contributes, line after line. */
  function KeptLines(lines: seq<string>): set<string> {
    if lines == [] then {}
    else
      var last := lines[|lines| - 1];
      KeptLines(lines[..|lines| - 1]) + (if IsEntryLine(last) then {last} else {})
  }

  /** Reading one more line adds that line when it is an entry line. */
  lemma KeptLinesNext(lines: seq<string>, i: nat)
    requires i < |lines|
    ensures KeptLines(lines[..i + 1]) == KeptLines(lines[..i]) + (if IsEntryLine(lines[i]) then {lines[i]} else {})
  {
    assert lines[..i + 1][..i] == lines[..i];
  }

  /** Every word of a dictionary that lexicon files filled is an entry line. */
  predicate IsLexicon(words: set<string>) {
    forall w | w in words :: IsEntryLine(w)
  }

  /** A file contributes exactly its non-empty, non-comment lines. */
  lemma {:induction false} KeptLinesMembers(lines: seq<string>, w: string)
    ensures w in KeptLines(lines) <==> w in lines && IsEntryLine(w)
    decreases |lines|
  {
    if lines != [] {
      var init := lines[..|lines| - 1];
      KeptLinesMembers(init, w);
      assert lines == init + [lines[|lines| - 1]];
      assert w in lines <==> w in init || w == lines[|lines| - 1];
    }
  }

  /** A file contributes at most one word per line, so a file of n lines adds at most n words. */
  lemma {:induction false} KeptLinesAtMostOnePerLine(lines: seq<string>)
    ensures |KeptLines(lines)| <= |lines|
    decreases |lines|
  {
    if lines != [] {
      KeptLinesAtMostOnePerLine(lines[..|lines| - 1]);
    }
  }

  /** What a lexicon file contributes is a lexicon: no empty word and no comment. */
  lemma KeptLinesIsLexicon(lines: seq<string>)
    ensures IsLexicon(KeptLines(lines))
    ensures "" !in KeptLines(lines)
  {
    forall w | w in KeptLines(lines) ensures IsEntryLine(w) {
      KeptLinesMembers(lines, w);
    }
  }

  /** Reading a file in two parts gives the words of both parts. */
  lemma KeptLinesAppend(a: seq<string>, b: seq<string>)
    ensures KeptLines(a + b) == KeptLines(a) + KeptLines(b)
  {
    forall w ensures w in KeptLines(a + b) <==> w in KeptLines(a) + KeptLines(b) {
      KeptLinesMembers(a + b, w);
      KeptLinesMembers(a, w);
      KeptLinesMembers(b, w);
      assert w in a + b <==> w in a || w in b;
    }
  }

  /** The dictionary does not depend on the order of the lines, nor on repeated lines. */
  lemma KeptLinesSameLines(a: seq<string>, b: seq<string>)
    requires forall l :: l in a <==> l in b
    ensures KeptLines(a) == KeptLines(b)
  {
    forall w ensures w in KeptLines(a) <==> w in KeptLines(b) {
      KeptLinesMembers(a, w);
      KeptLinesMembers(b, w);
    }
  }

  /** Loading the same file twice gives the same dictionary as loading it once. */
  lemma KeptLinesTwice(lines: seq<string>)
    ensures KeptLines(lines + lines) == KeptLines(lines)
  {
    KeptLinesAppend(lines, lines);
  }

  // ---------------------------------------------------------------------------
  // Word dictionaries

  /** A hash set of words, updated in place. */
  class WordSet {
    var words: set<string>

    constructor()
      ensures words == {}
    {
      words := {};
    }

    method Add(w: string)
      modifies this
      ensures words == old(words) + {w}
    {
      words := words + {w};
    }
  }

  /** The figures the final report prints, all of them integers. */
  datatype Summary = Summary(
    positiveWords: int, negativeWords: int,
    posReviews: int, posCorrect: int, posMisclassified: int,
    negReviews: int, negCorrect: int, negMisclassified: int,
    allReviews: int, allCorrect: int, allMisclassified: int)

  class ReviewClassifier {
    const positiveWords: WordSet
    const negativeWords: WordSet
    /** Reviews in the positive folder, and how many of them were classified positive. */
    var posFilesCount: int
    var correctPosCount: int
    /** Reviews in the negative folder, and how many of them were classified negative. */
    var negFilesCount: int
    var correctNegCount: int

    /**
     * Two distinct dictionaries that hold only lexicon entries, and counters
     * where the correctly classified reviews are some of the reviews.
     */
    ghost predicate Valid()
      reads this, positiveWords, negativeWords
    {
      positiveWords != negativeWords &&
      IsLexicon(positiveWords.words) && IsLexicon(negativeWords.words) &&
      0 <= correctPosCount <= posFilesCount &&
      0 <= correctNegCount <= negFilesCount
    }

    constructor()
      ensures Valid()
      ensures fresh(positiveWords) && fresh(negativeWords)
      ensures positiveWords.words == {} && negativeWords.words == {}
      ensures posFilesCount == 0 && correctPosCount == 0
      ensures negFilesCount == 0 && correctNegCount == 0
    {
      positiveWords := new WordSet();
      negativeWords := new WordSet();
      posFilesCount, correctPosCount := 0, 0;
      negFilesCount, correctNegCount := 0, 0;
    }

    /** Adds the entry lines of a lexicon file to one of the two dictionaries. */
    method ReadInWords(lines: seq<string>, dictionary: WordSet)
      requires Valid()
      requires dictionary == positiveWords || dictionary == negativeWords
      modifies dictionary
      ensures Valid()
      ensures dictionary.words == old(dictionary.words) + KeptLines(lines)
    {
      var i := 0;
      while i < |lines|
        invariant 0 <= i <= |lines|
        invariant dictionary.words == old(dictionary.words) + KeptLines(lines[..i])
      {
        var line := lines[i];
        KeptLinesNext(lines, i);
        if line != [] && line[0] != ';' && line != "" {
          dictionary.Add(line);
        }
        i := i + 1;
      }
      assert lines[..|lines|] == lines;
      KeptLinesIsLexicon(lines);
    }

    /** Counts the lexicon hits of every token, line by line, and decides the review's polarity. */
    method ClassifyReview(doc: seq<string>) returns (positiveReview: bool)
      ensures positiveReview == ClassifiedPositive(doc, positiveWords.words, negativeWords.words)
    {
      var positive, negative := 0, 0;
      var n := 0;
      while n < |doc|
        invariant 0 <= n <= |doc|
        invariant positive == PositiveHits(DocTokens(doc[..n]), positiveWords.words)
        invariant negative == NegativeHits(DocTokens(doc[..n]), positiveWords.words, negativeWords.words)
      {
        var text := doc[n];
        text := ReplaceBreaks(text);
        text := ReplacePunct(text);
        var tokens := Split(text);
        positive, negative := CountHits(tokens, positive, negative);
        HitsNextLine(doc, n, positiveWords.words, negativeWords.words);
        n := n + 1;
      }
      assert doc[..|doc|] == doc;
      positiveReview := positive > negative;
    }

    /**
     * The token loop of ClassifyReview: each token found in the positive
     * dictionary raises the positive counter; otherwise, if found in the
     * negative dictionary, it raises the negative one.
     */
    method CountHits(tokens: seq<string>, positive0: int, negative0: int) returns (positive: int, negative: int)
      ensures positive == positive0 + PositiveHits(tokens, positiveWords.words)
      ensures negative == negative0 + NegativeHits(tokens, positiveWords.words, negativeWords.words)
    {
      positive, negative := positive0, negative0;
      var i := 0;
      while i < |tokens|
        invariant 0 <= i <= |tokens|
        invariant positive == positive0 + PositiveHits(tokens[..i], positiveWords.words)
        invariant negative == negative0 + NegativeHits(tokens[..i], positiveWords.words, negativeWords.words)
      {
        assert tokens[..i + 1][..i] == tokens[..i];
        if tokens[i] in positiveWords.words {
          positive := positive + 1;
        } else if tokens[i] in negativeWords.words {
          negative := negative + 1;
        }
        i := i + 1;
      }
      assert tokens[..|tokens|] == tokens;
    }

    /**
     * Classifies every entry of a folder whose name contains ".txt" and
     * records, for the folder's target polarity, how many reviews it holds
     * and how many were classified as that polarity.
     */
    method ClassifyReviews(folder: seq<Entry>, target: bool)
      requires Valid()
      modifies this
      ensures Valid()
      ensures var t := FolderTally(folder, positiveWords.words, negativeWords.words);
        if target then
          posFilesCount == t.total && correctPosCount == t.total - t.negative == t.positive &&
          Report().posMisclassified == t.negative &&
          negFilesCount == old(negFilesCount) && correctNegCount == old(correctNegCount)
        else
          negFilesCount == t.total && correctNegCount == t.total - t.positive == t.negative &&
          Report().negMisclassified == t.positive &&
          posFilesCount == old(posFilesCount) && correctPosCount == old(correctPosCount)
    {
      var totalFiles, positiveFiles, negativeFiles := 0, 0, 0;
      var i := 0;
      while i < |folder|
        invariant 0 <= i <= |folder|
        invariant unchanged(this)
        invariant FolderTally(folder[..i], positiveWords.words, negativeWords.words)
               == Tally(totalFiles, positiveFiles, negativeFiles)
      {
        FolderTallyNext(folder, i, positiveWords.words, negativeWords.words);
        if IsReviewFile(folder[i].name) {
          totalFiles := totalFiles + 1;
          var actually := ClassifyReview(folder[i].lines);
          if actually {
            positiveFiles := positiveFiles + 1;
          } else {
            negativeFiles := negativeFiles + 1;
          }
        }
        i := i + 1;
      }
      assert folder[..|folder|] == folder;
      FolderTallyBalanced(folder, positiveWords.words, negativeWords.words);
      if target {
        posFilesCount := totalFiles;
        correctPosCount := totalFiles - negativeFiles;
      } else {
        negFilesCount := totalFiles;
        correctNegCount := totalFiles - positiveFiles;
      }
    }

    /** The integer figures of the final report. */
    function Report(): (r: Summary)
      reads this, positiveWords, negativeWords
      ensures r.positiveWords == |positiveWords.words| && r.negativeWords == |negativeWords.words|
      ensures r.posReviews == posFilesCount && r.posCorrect == correctPosCount
      ensures r.negReviews == negFilesCount && r.negCorrect == correctNegCount
      ensures r.posCorrect + r.posMisclassified == r.posReviews
      ensures r.negCorrect + r.negMisclassified == r.negReviews
      ensures r.allReviews == r.posReviews + r.negReviews
      ensures r.allCorrect == r.posCorrect + r.negCorrect
      ensures r.allMisclassified == r.posMisclassified + r.negMisclassified
      ensures r.allCorrect + r.allMisclassified == r.allReviews
      ensures Valid() ==> 0 <= r.posMisclassified <= r.posReviews && 0 <= r.negMisclassified <= r.negReviews
      ensures Valid() ==> 0 <= r.allCorrect <= r.allReviews
    {
      Summary(
        |positiveWords.words|, |negativeWords.words|,
        posFilesCount, correctPosCount, posFilesCount - correctPosCount,
        negFilesCount, correctNegCount, negFilesCount - correctNegCount,
        negFilesCount + posFilesCount, correctNegCount + correctPosCount,
        (negFilesCount - correctNegCount) + (posFilesCount - correctPosCount))
    }
  }
}
