/**
 * What the classifier computes, stated as functions: the hit counts of a
 * document against the two lexicons, the verdict on one document, and the
 * tally over a folder of reviews. The methods of ReviewClassifier are proved
 * against these.
 */
module Scoring {
  import opened Tokenizer

  /** The tokens of a document, line after line. */
  function DocTokens(doc: seq<string>): seq<string>
  {
    if doc == [] then [] else DocTokens(doc[..|doc| - 1]) + Tokens(doc[|doc| - 1])
  }

  /** Tokens found in the positive lexicon. */
  function PositiveHits(tokens: seq<string>, pos: set<string>): (n: nat)
    ensures n <= |tokens|
  {
    if tokens == [] then 0
    else PositiveHits(tokens[..|tokens| - 1], pos) + (if tokens[|tokens| - 1] in pos then 1 else 0)
  }

  /** Tokens found in the negative lexicon; it is only consulted when the positive lookup fails. */
  function NegativeHits(tokens: seq<string>, pos: set<string>, neg: set<string>): (n: nat)
    ensures n <= |tokens|
  {
    if tokens == [] then 0
    else
      var t := tokens[|tokens| - 1];
      NegativeHits(tokens[..|tokens| - 1], pos, neg) + (if t !in pos && t in neg then 1 else 0)
  }

  /** The verdict on one document: strictly more positive than negative hits, so at least one positive hit. */
  predicate ClassifiedPositive(doc: seq<string>, pos: set<string>, neg: set<string>)
    ensures ClassifiedPositive(doc, pos, neg) ==> PositiveHits(DocTokens(doc), pos) > 0
  {
    PositiveHits(DocTokens(doc), pos) > NegativeHits(DocTokens(doc), pos, neg)
  }

  // ---------------------------------------------------------------------------
  // Hit counts

  /** Each token raises at most one of the two counters. */
  lemma {:induction false} HitsBounded(tokens: seq<string>, pos: set<string>, neg: set<string>)
    ensures PositiveHits(tokens, pos) + NegativeHits(tokens, pos, neg) <= |tokens|
    decreases |tokens|
  {
    if tokens != [] {
      HitsBounded(tokens[..|tokens| - 1], pos, neg);
    }
  }

  /** Counting over two stretches of tokens adds up. */
  lemma {:induction false} HitsAppend(a: seq<string>, b: seq<string>, pos: set<string>, neg: set<string>)
    ensures PositiveHits(a + b, pos) == PositiveHits(a, pos) + PositiveHits(b, pos)
    ensures NegativeHits(a + b, pos, neg) == NegativeHits(a, pos, neg) + NegativeHits(b, pos, neg)
    decreases |b|
  {
    if b == [] {
      assert a + b == a;
    } else {
      var b' := b[..|b| - 1];
      assert (a + b)[..|a + b| - 1] == a + b';
      assert (a + b)[|a + b| - 1] == b[|b| - 1];
      HitsAppend(a, b', pos, neg);
    }
  }

  /** A token in both lexicons, wherever it stands, is one positive hit and no negative one. */
  lemma OverlapCountsPositive(a: seq<string>, t: string, b: seq<string>, pos: set<string>, neg: set<string>)
    requires t in pos
    ensures PositiveHits(a + [t] + b, pos) == PositiveHits(a + b, pos) + 1
    ensures NegativeHits(a + [t] + b, pos, neg) == NegativeHits(a + b, pos, neg)
  {
    HitsAppend(a + [t], b, pos, neg);
    HitsAppend(a, [t], pos, neg);
    HitsAppend(a, b, pos, neg);
    assert [t][..0] == [];
  }

  /** A token in neither lexicon, wherever it stands, changes no counter. */
  lemma MissCountsNothing(a: seq<string>, t: string, b: seq<string>, pos: set<string>, neg: set<string>)
    requires t !in pos && t !in neg
    ensures PositiveHits(a + [t] + b, pos) == PositiveHits(a + b, pos)
    ensures NegativeHits(a + [t] + b, pos, neg) == NegativeHits(a + b, pos, neg)
  {
    HitsAppend(a + [t], b, pos, neg);
    HitsAppend(a, [t], pos, neg);
    HitsAppend(a, b, pos, neg);
    assert [t][..0] == [];
  }

  /** Since positive lookup comes first, the words a negative lexicon shares with the positive one never count. */
  lemma {:induction false} SharedNegativeWordsIgnored(tokens: seq<string>, pos: set<string>, neg: set<string>)
    ensures NegativeHits(tokens, pos, neg) == NegativeHits(tokens, pos, neg - pos)
    decreases |tokens|
  {
    if tokens != [] {
      SharedNegativeWordsIgnored(tokens[..|tokens| - 1], pos, neg);
    }
  }

  /** No token in either lexicon means no hit at all. */
  lemma {:induction false} NoHits(tokens: seq<string>, pos: set<string>, neg: set<string>)
    requires forall i :: 0 <= i < |tokens| ==> tokens[i] !in pos && tokens[i] !in neg
    ensures PositiveHits(tokens, pos) == 0 && NegativeHits(tokens, pos, neg) == 0
    decreases |tokens|
  {
    if tokens != [] {
      NoHits(tokens[..|tokens| - 1], pos, neg);
    }
  }

  // ---------------------------------------------------------------------------
  // The verdict on a document

  lemma DocTokensSnoc(doc: seq<string>, line: string)
    ensures DocTokens(doc + [line]) == DocTokens(doc) + Tokens(line)
  {
    assert (doc + [line])[..|doc|] == doc;
  }

  /** The hits of a document's first n + 1 lines are those of its first n lines plus those of line n. */
  lemma HitsNextLine(doc: seq<string>, n: nat, pos: set<string>, neg: set<string>)
    requires n < |doc|
    ensures PositiveHits(DocTokens(doc[..n + 1]), pos) == PositiveHits(DocTokens(doc[..n]), pos) + PositiveHits(Tokens(doc[n]), pos)
    ensures NegativeHits(DocTokens(doc[..n + 1]), pos, neg) == NegativeHits(DocTokens(doc[..n]), pos, neg) + NegativeHits(Tokens(doc[n]), pos, neg)
  {
    assert doc[..n + 1] == doc[..n] + [doc[n]];
    DocTokensSnoc(doc[..n], doc[n]);
    HitsAppend(DocTokens(doc[..n]), Tokens(doc[n]), pos, neg);
  }

  lemma DocTokensSnocOf(doc: seq<string>, init: seq<string>, line: string)
    requires doc == init + [line]
    ensures DocTokens(doc) == DocTokens(init) + Tokens(line)
  {
    DocTokensSnoc(init, line);
  }

  lemma ConcatShift(x: seq<string>, y: seq<string>, u: seq<string>, v: seq<string>, t: seq<string>)
    requires x == y + t && y == u + v
    ensures x == u + (v + t)
  {
  }

  /** The tokens of a document are those of its first lines followed by those of the rest. */
  lemma {:induction false} DocTokensAppend(a: seq<string>, b: seq<string>)
    ensures DocTokens(a + b) == DocTokens(a) + DocTokens(b)
    decreases |b|
  {
    if b == [] {
      assert a + b == a;
    } else {
      var b', last := b[..|b| - 1], b[|b| - 1];
      assert a + b == (a + b') + [last];
      assert b == b' + [last];
      DocTokensSnocOf(a + b, a + b', last);
      DocTokensSnocOf(b, b', last);
      DocTokensAppend(a, b');
      ConcatShift(DocTokens(a + b), DocTokens(a + b'), DocTokens(a), DocTokens(b'), Tokens(last));
    }
  }

  /** A document without any lexicon word, or with no words at all, is negative: a 0-0 tie. */
  lemma NoLexiconWordIsNegative(doc: seq<string>, pos: set<string>, neg: set<string>)
    requires forall i :: 0 <= i < |DocTokens(doc)| ==> DocTokens(doc)[i] !in pos && DocTokens(doc)[i] !in neg
    ensures !ClassifiedPositive(doc, pos, neg)
  {
    NoHits(DocTokens(doc), pos, neg);
  }

  /** Removing from the negative lexicon the words it shares with the positive one changes no verdict. */
  lemma SharedWordsDoNotChangeVerdict(doc: seq<string>, pos: set<string>, neg: set<string>)
    ensures ClassifiedPositive(doc, pos, neg) == ClassifiedPositive(doc, pos, neg - pos)
  {
    SharedNegativeWordsIgnored(DocTokens(doc), pos, neg);
  }

  /**
   * A one-line document of words separated by whitespace runs has those
   * words as its tokens, after one empty token when the line starts with
   * whitespace.
   */
  lemma OneLineOfWords(lead: string, ws: seq<string>, gaps: seq<string>, trail: string)
    requires |ws| == |gaps| + 1
    requires forall i :: 0 <= i < |ws| ==> IsWord(ws[i])
    requires forall i :: 0 <= i < |gaps| ==> IsGap(gaps[i])
    requires lead == [] || IsGap(lead)
    requires trail == [] || IsGap(trail)
    ensures DocTokens([lead + Spaced(ws, gaps) + trail]) == (if lead == [] then [] else [""]) + ws
  {
    var line := lead + Spaced(ws, gaps) + trail;
    TokensSpaced(lead, ws, gaps, trail);
    DocTokensSnoc([], line);
    assert [] + [line] == [line];
  }

  /**
   * A one-line document of words is judged on exactly those words when the
   * line starts with a word, or when neither lexicon holds the empty string
   * (as no lexicon read from files does): the leading empty token then never hits.
   */
  lemma OneLineVerdict(lead: string, ws: seq<string>, gaps: seq<string>, trail: string, pos: set<string>, neg: set<string>)
    requires |ws| == |gaps| + 1
    requires forall i :: 0 <= i < |ws| ==> IsWord(ws[i])
    requires forall i :: 0 <= i < |gaps| ==> IsGap(gaps[i])
    requires lead == [] || IsGap(lead)
    requires trail == [] || IsGap(trail)
    ensures lead == [] || ("" !in pos && "" !in neg) ==>
      (ClassifiedPositive([lead + Spaced(ws, gaps) + trail], pos, neg)
       <==> PositiveHits(ws, pos) > NegativeHits(ws, pos, neg))
  {
    OneLineOfWords(lead, ws, gaps, trail);
    if lead == [] {
      assert [] + ws == ws;
    } else if "" !in pos && "" !in neg {
      HitsAppend([""], ws, pos, neg);
      HitsOfOne("", pos, neg);
    }
  }

  lemma HitsOfOne(t: string, pos: set<string>, neg: set<string>)
    ensures PositiveHits([t], pos) == if t in pos then 1 else 0
    ensures NegativeHits([t], pos, neg) == if t !in pos && t in neg then 1 else 0
  {
    assert [t][..0] == [];
  }

  /**
   * A document made of one word is positive exactly when that very word,
   * letter case included, is in the positive lexicon.
   */
  lemma SingleWordVerdict(w: string, pos: set<string>, neg: set<string>)
    requires IsWord(w)
    ensures ClassifiedPositive([w], pos, neg) <==> w in pos
  {
    OneLineVerdict([], [w], [], [], pos, neg);
    assert [] + Spaced([w], []) + [] == w;
    HitsOfOne(w, pos, neg);
  }

  /**
   * With a positive word g, a negative word b and any whitespace runs x and
   * y between them: "g g b" is positive (2 > 1), "b b g" is negative (1 < 2)
   * and "g b" is negative (a 1-1 tie).
   */
  lemma MajorityExamples(g: string, b: string, x: string, y: string, pos: set<string>, neg: set<string>)
    requires IsWord(g) && IsWord(b) && IsGap(x) && IsGap(y)
    requires g in pos && b !in pos && b in neg
    ensures ClassifiedPositive([Spaced([g, g, b], [x, y])], pos, neg)
    ensures !ClassifiedPositive([Spaced([b, b, g], [x, y])], pos, neg)
    ensures !ClassifiedPositive([Spaced([g, b], [x])], pos, neg)
  {
    HitsOfOne(g, pos, neg);
    HitsOfOne(b, pos, neg);
    HitsOfPair(g, b, pos, neg);
    HitsOfTriple(g, g, b, pos, neg);
    HitsOfTriple(b, b, g, pos, neg);
    SpacedLineVerdict([g, g, b], [x, y], pos, neg);
    SpacedLineVerdict([b, b, g], [x, y], pos, neg);
    SpacedLineVerdict([g, b], [x], pos, neg);
  }

  lemma HitsOfPair(t: string, u: string, pos: set<string>, neg: set<string>)
    ensures PositiveHits([t, u], pos) == PositiveHits([t], pos) + PositiveHits([u], pos)
    ensures NegativeHits([t, u], pos, neg) == NegativeHits([t], pos, neg) + NegativeHits([u], pos, neg)
  {
    HitsAppend([t], [u], pos, neg);
    assert [t] + [u] == [t, u];
  }

  lemma HitsOfTriple(t: string, u: string, v: string, pos: set<string>, neg: set<string>)
    ensures PositiveHits([t, u, v], pos) == PositiveHits([t], pos) + PositiveHits([u], pos) + PositiveHits([v], pos)
    ensures NegativeHits([t, u, v], pos, neg) == NegativeHits([t], pos, neg) + NegativeHits([u], pos, neg) + NegativeHits([v], pos, neg)
  {
    HitsOfPair(t, u, pos, neg);
    HitsAppend([t, u], [v], pos, neg);
    assert [t, u] + [v] == [t, u, v];
  }

  /** A line of words separated by whitespace runs, with nothing around them, is judged on those words. */
  lemma SpacedLineVerdict(ws: seq<string>, gaps: seq<string>, pos: set<string>, neg: set<string>)
    requires |ws| == |gaps| + 1
    requires forall i :: 0 <= i < |ws| ==> IsWord(ws[i])
    requires forall i :: 0 <= i < |gaps| ==> IsGap(gaps[i])
    ensures ClassifiedPositive([Spaced(ws, gaps)], pos, neg) <==> PositiveHits(ws, pos) > NegativeHits(ws, pos, neg)
  {
    OneLineVerdict([], ws, gaps, [], pos, neg);
    assert [] + Spaced(ws, gaps) + [] == Spaced(ws, gaps);
  }

  // ---------------------------------------------------------------------------
  // Folders of reviews

  /** An entry of a review folder: its name and the lines of the file. */
  datatype Entry = Entry(name: string, lines: seq<string>)

  /** `pat` occurs in `s` starting at index `i`. */
  predicate OccursAt(s: string, pat: string, i: int) {
    0 <= i && i + |pat| <= |s| && s[i..i + |pat|] == pat
  }

  /** The folder scan counts an entry when its name contains ".txt" anywhere, not only at the end. */
  predicate IsReviewFile(name: string)
    ensures IsReviewFile(name) ==> |name| >= 4
  {
    exists i :: 0 <= i <= |name| - 4 && OccursAt(name, ".txt", i)
  }

  /** How many entries were counted, and how many of them were classified positive and negative. */
  datatype Tally = Tally(total: int, positive: int, negative: int)

  function Add(a: Tally, b: Tally): Tally {
    Tally(a.total + b.total, a.positive + b.positive, a.negative + b.negative)
  }

  /** What one folder entry adds to the tally: nothing unless its name contains ".txt". */
  function EntryTally(e: Entry, pos: set<string>, neg: set<string>): (t: Tally)
    ensures t.total == t.positive + t.negative && 0 <= t.positive && 0 <= t.negative && t.total <= 1
    ensures t.total == 1 <==> IsReviewFile(e.name)
    ensures t.positive == 1 <==> IsReviewFile(e.name) && ClassifiedPositive(e.lines, pos, neg)
  {
    if !IsReviewFile(e.name) then Tally(0, 0, 0)
    else if ClassifiedPositive(e.lines, pos, neg) then Tally(1, 1, 0)
    else Tally(1, 0, 1)
  }

  /** The tally of a folder, entry after entry. */
  function FolderTally(folder: seq<Entry>, pos: set<string>, neg: set<string>): Tally {
    if folder == [] then Tally(0, 0, 0)
    else Add(FolderTally(folder[..|folder| - 1], pos, neg), EntryTally(folder[|folder| - 1], pos, neg))
  }

  /** Every counted entry is classified exactly once, as positive or as negative. */
  lemma {:induction false} FolderTallyBalanced(folder: seq<Entry>, pos: set<string>, neg: set<string>)
    ensures var t := FolderTally(folder, pos, neg);
      0 <= t.positive && 0 <= t.negative && t.total == t.positive + t.negative <= |folder|
    decreases |folder|
  {
    if folder != [] {
      var n := |folder| - 1;
      FolderTallyBalanced(folder[..n], pos, neg);
    }
  }

  /** The positions of the entries whose name contains ".txt". */
  function ReviewIndices(folder: seq<Entry>): set<int> {
    set i | 0 <= i < |folder| && IsReviewFile(folder[i].name)
  }

  lemma ReviewIndicesSnoc(folder: seq<Entry>)
    requires folder != []
    ensures var n := |folder| - 1;
      ReviewIndices(folder) == ReviewIndices(folder[..n]) + (if IsReviewFile(folder[n].name) then {n} else {})
    ensures |folder| - 1 !in ReviewIndices(folder[..|folder| - 1])
  {
    var n := |folder| - 1;
    forall i ensures i in ReviewIndices(folder) <==> i in ReviewIndices(folder[..n]) || (i == n && IsReviewFile(folder[n].name)) {
      if 0 <= i < n {
        assert folder[..n][i] == folder[i];
      }
    }
  }

  /** Exactly the entries whose name contains ".txt" are counted. */
  lemma {:induction false} FolderTallyCountsReviewFiles(folder: seq<Entry>, pos: set<string>, neg: set<string>)
    ensures FolderTally(folder, pos, neg).total == |ReviewIndices(folder)|
    decreases |folder|
  {
    if folder != [] {
      var n := |folder| - 1;
      FolderTallyCountsReviewFiles(folder[..n], pos, neg);
      ReviewIndicesSnoc(folder);
      var before := ReviewIndices(folder[..n]);
      if IsReviewFile(folder[n].name) {
        assert |before + {n}| == |before| + 1;
      }
    }
  }

  lemma AddAssociative(x: Tally, y: Tally, z: Tally)
    ensures Add(Add(x, y), z) == Add(x, Add(y, z))
  {
  }

  lemma AddCommutative(x: Tally, y: Tally)
    ensures Add(x, y) == Add(y, x)
  {
  }

  lemma AddZero(x: Tally)
    ensures Add(x, Tally(0, 0, 0)) == x
  {
  }

  lemma FolderTallySnoc(folder: seq<Entry>, e: Entry, pos: set<string>, neg: set<string>)
    ensures FolderTally(folder + [e], pos, neg) == Add(FolderTally(folder, pos, neg), EntryTally(e, pos, neg))
  {
    assert (folder + [e])[..|folder|] == folder;
  }

  /** Reading one more entry of a listing adds that entry's tally. */
  lemma FolderTallyNext(folder: seq<Entry>, i: nat, pos: set<string>, neg: set<string>)
    requires i < |folder|
    ensures FolderTally(folder[..i + 1], pos, neg) == Add(FolderTally(folder[..i], pos, neg), EntryTally(folder[i], pos, neg))
  {
    assert folder[..i + 1][..i] == folder[..i];
  }

  /** The tally of two stretches of a listing is the sum of their tallies. */
  lemma {:induction false} FolderTallyAppend(a: seq<Entry>, b: seq<Entry>, pos: set<string>, neg: set<string>)
    ensures FolderTally(a + b, pos, neg) == Add(FolderTally(a, pos, neg), FolderTally(b, pos, neg))
    decreases |b|
  {
    if b == [] {
      assert a + b == a;
      AddZero(FolderTally(a, pos, neg));
    } else {
      var b', last := b[..|b| - 1], b[|b| - 1];
      assert b == b' + [last];
      assert a + b == (a + b') + [last];
      FolderTallyAppend(a, b', pos, neg);
      FolderTallySnoc(a + b', last, pos, neg);
      FolderTallySnoc(b', last, pos, neg);
      AddAssociative(FolderTally(a, pos, neg), FolderTally(b', pos, neg), EntryTally(last, pos, neg));
    }
  }

  /** The order in which the directory lists its entries does not change the tally. */
  lemma {:induction false} FolderTallyOrderIndependent(a: seq<Entry>, b: seq<Entry>, pos: set<string>, neg: set<string>)
    requires multiset(a) == multiset(b)
    ensures FolderTally(a, pos, neg) == FolderTally(b, pos, neg)
    decreases |a|
  {
    if a == [] {
      assert |b| == |multiset(b)| == 0;
    } else {
      var x := a[|a| - 1];
      var a' := a[..|a| - 1];
      assert a == a' + [x];
      assert x in multiset(b);
      var k :| 0 <= k < |b| && b[k] == x;
      var left, right := b[..k], b[k + 1..];
      assert b == left + [x] + right;
      assert multiset(left + right) == multiset(b) - multiset{x};
      assert multiset(a') == multiset(a) - multiset{x};
      FolderTallyOrderIndependent(a', left + right, pos, neg);
      FolderTallySnoc(a', x, pos, neg);
      var tl, tx, tr := FolderTally(left, pos, neg), EntryTally(x, pos, neg), FolderTally(right, pos, neg);
      FolderTallyAppend(left + [x], right, pos, neg);
      FolderTallySnoc(left, x, pos, neg);
      FolderTallyAppend(left, right, pos, neg);
      // FolderTally(b) == (tl + tx) + tr and FolderTally(a) == (tl + tr) + tx
      AddAssociative(tl, tx, tr);
      AddAssociative(tl, tr, tx);
      AddCommutative(tx, tr);
    }
  }

  /** ".txt" is looked for anywhere in the name: "notes.txt.bak" counts, "notes.md" does not. */
  lemma ReviewFileNames()
    ensures IsReviewFile("a.txt")
    ensures IsReviewFile("notes.txt.bak")
    ensures !IsReviewFile("notes.md")
    ensures !IsReviewFile("subdir")
  {
    assert OccursAt("a.txt", ".txt", 1);
    assert OccursAt("notes.txt.bak", ".txt", 5);
    forall i | 0 <= i <= |"notes.md"| - 4 ensures !OccursAt("notes.md", ".txt", i) {
      assert "notes.md"[i + 1] != 't' || "notes.md"[i] != '.';
    }
    forall i | 0 <= i <= |"subdir"| - 4 ensures !OccursAt("subdir", ".txt", i) {
      assert "subdir"[i] != '.';
    }
  }
}
