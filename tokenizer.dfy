/**
 * Tokenisation of one review line, as the classifier does it:
 *   1. every literal `<br />` becomes one space,
 *   2. every ASCII punctuation character becomes one space,
 *   3. the line is split on runs of whitespace with Java's `String.split("\\s+")`.
 * The lower-cased copy the classifier computes is discarded, so nothing here
 * changes the case of a letter.
 */
module Tokenizer {

  /** Java's `\s`: space, tab, newline, vertical tab, form feed, carriage return. */
  predicate IsSpace(c: char) {
    c == ' ' || ('\t' <= c <= '\r')
  }

  /** Java's `\p{Punct}`: one of !"#$%&'()*+,-./:;<=>?@[\]^_`{|}~ */
  predicate IsPunct(c: char) {
    ('!' <= c <= '/') || (':' <= c <= '@') || ('[' <= c <= '`') || ('{' <= c <= '~')
  }

  predicate NoSpace(w: string) {
    forall k :: 0 <= k < |w| ==> !IsSpace(w[k])
  }

  predicate NoPunct(w: string) {
    forall k :: 0 <= k < |w| ==> !IsPunct(w[k])
  }

  // ---------------------------------------------------------------------------
  // Step 1: `<br />` markers

  const BREAK: string := "<br />"

  predicate BreakAt(s: string, i: int) {
    0 <= i && i + |BREAK| <= |s| && s[i..i + |BREAK|] == BREAK
  }

  /** `replaceAll("<br />", " ")`: matches are found left to right and do not overlap. */
  function ReplaceBreaks(s: string): (r: string)
    ensures |r| <= |s|
    decreases |s|
  {
    if |s| >= |BREAK| && s[..|BREAK|] == BREAK then " " + ReplaceBreaks(s[|BREAK|..])
    else if s == [] then []
    else [s[0]] + ReplaceBreaks(s[1..])
  }

  /** Dropping the first character cannot create a `<br />`. */
  lemma NoBreakTail(s: string)
    requires s != []
    requires forall i :: !BreakAt(s, i)
    ensures forall i :: !BreakAt(s[1..], i)
  {
    forall i | BreakAt(s[1..], i) ensures false {
      assert s[1..][i..i + |BREAK|] == s[i + 1..i + 1 + |BREAK|];
      assert BreakAt(s, i + 1);
    }
  }

  /** A line without any `<br />` passes through unchanged. */
  lemma {:induction false} ReplaceBreaksIdentity(s: string)
    requires forall i :: !BreakAt(s, i)
    ensures ReplaceBreaks(s) == s
    decreases |s|
  {
    if s != [] {
      assert !BreakAt(s, 0);
      NoBreakTail(s);
      ReplaceBreaksIdentity(s[1..]);
    }
  }

  /** A line that does not start with `<br />` keeps not doing so when a `<br />` follows it. */
  lemma NoBreakBeforeBreak(a: string, b: string)
    requires a != []
    requires !BreakAt(a, 0)
    ensures (a + BREAK + b)[..|BREAK|] != BREAK
  {
    var s := a + BREAK + b;
    if |a| >= |BREAK| {
      assert s[..|BREAK|] == a[0..|BREAK|];
    } else {
      // The match would run into the marker, whose '<' comes only first.
      assert s[|a|] == '<';
      assert s[..|BREAK|][|a|] == '<' != BREAK[|a|];
    }
  }

  /**
   * The first `<br />` of a line turns into exactly one space, the text
   * before it is kept, and replacement goes on after it.
   */
  lemma {:induction false} ReplaceBreaksSplice(a: string, b: string)
    requires forall i :: !BreakAt(a, i)
    ensures ReplaceBreaks(a + BREAK + b) == a + " " + ReplaceBreaks(b)
    decreases |a|
  {
    var s := a + BREAK + b;
    if a == [] {
      assert s == BREAK + b;
      assert s[..|BREAK|] == BREAK;
      assert s[|BREAK|..] == b;
    } else {
      NoBreakBeforeBreak(a, b);
      assert s[1..] == a[1..] + BREAK + b;
      NoBreakTail(a);
      ReplaceBreaksSplice(a[1..], b);
    }
  }

  // ---------------------------------------------------------------------------
  // Step 2: punctuation

  /** `replaceAll("\\p{Punct}", " ")` (see ReplacePunctSpec). */
  function ReplacePunct(s: string): (r: string)
    ensures |r| == |s|
  {
    if s == [] then []
    else [if IsPunct(s[0]) then ' ' else s[0]] + ReplacePunct(s[1..])
  }

  /** Each punctuation character becomes a space, every other character stays, and no punctuation is left. */
  lemma {:induction false} ReplacePunctSpec(s: string)
    ensures forall i :: 0 <= i < |s| && IsPunct(s[i]) ==> ReplacePunct(s)[i] == ' '
    ensures forall i :: 0 <= i < |s| && !IsPunct(s[i]) ==> ReplacePunct(s)[i] == s[i]
    ensures NoPunct(ReplacePunct(s))
    decreases |s|
  {
    if s != [] {
      ReplacePunctSpec(s[1..]);
      var r := ReplacePunct(s);
      forall i | 1 <= i < |s| ensures r[i] == ReplacePunct(s[1..])[i - 1] && s[i] == s[1..][i - 1] {
      }
    }
  }

  /** Replacement works character by character, so it distributes over concatenation. */
  lemma {:induction false} ReplacePunctAppend(a: string, b: string)
    ensures ReplacePunct(a + b) == ReplacePunct(a) + ReplacePunct(b)
    decreases |a|
  {
    if a == [] {
      assert a + b == b;
    } else {
      assert (a + b)[0] == a[0] && (a + b)[1..] == a[1..] + b;
      ReplacePunctAppend(a[1..], b);
    }
  }

  /** A string without punctuation is left as it is. */
  lemma ReplacePunctClean(s: string)
    requires NoPunct(s)
    ensures ReplacePunct(s) == s
  {
    ReplacePunctSpec(s);
  }

  // ---------------------------------------------------------------------------
  // Step 3: Java's `split("\\s+")`

  /** Length of the longest prefix of `s` without whitespace (see WordEndFacts). */
  function WordEnd(s: string): (n: nat)
    ensures n <= |s|
  {
    if s == [] || IsSpace(s[0]) then 0 else 1 + WordEnd(s[1..])
  }

  /** Length of the longest prefix of `s` made of whitespace (see SpaceEndFacts). */
  function SpaceEnd(s: string): (n: nat)
    ensures n <= |s|
  {
    if s == [] || !IsSpace(s[0]) then 0 else 1 + SpaceEnd(s[1..])
  }

  /** WordEnd stops at the first whitespace character. */
  lemma {:induction false} WordEndFacts(s: string)
    ensures forall k :: 0 <= k < WordEnd(s) ==> !IsSpace(s[k])
    ensures WordEnd(s) < |s| ==> IsSpace(s[WordEnd(s)])
    decreases |s|
  {
    if s != [] && !IsSpace(s[0]) {
      WordEndFacts(s[1..]);
      forall k | 1 <= k < WordEnd(s) ensures !IsSpace(s[k]) {
        assert s[k] == s[1..][k - 1];
      }
      assert WordEnd(s) < |s| ==> s[WordEnd(s)] == s[1..][WordEnd(s[1..])];
    }
  }

  /** SpaceEnd stops at the first character that is not whitespace. */
  lemma {:induction false} SpaceEndFacts(s: string)
    ensures forall k :: 0 <= k < SpaceEnd(s) ==> IsSpace(s[k])
    ensures SpaceEnd(s) < |s| ==> !IsSpace(s[SpaceEnd(s)])
    decreases |s|
  {
    if s != [] && IsSpace(s[0]) {
      SpaceEndFacts(s[1..]);
      forall k | 1 <= k < SpaceEnd(s) ensures IsSpace(s[k]) {
        assert s[k] == s[1..][k - 1];
      }
      assert SpaceEnd(s) < |s| ==> s[SpaceEnd(s)] == s[1..][SpaceEnd(s[1..])];
    }
  }

  /**
   * The pieces of `s` around its maximal whitespace runs: one more piece than
   * there are runs (see PiecesNoSpace and PiecesInterior).
   */
  function Pieces(s: string): (r: seq<string>)
    ensures 1 <= |r| <= |s| + 1
    decreases |s|
  {
    var w := WordEnd(s);
    if w == |s| then [s]
    else
      var g := w + SpaceEnd(s[w..]);
      [s[..w]] + Pieces(s[g..])
  }

  lemma PiecesStep(s: string, w: nat, g: nat)
    requires w == WordEnd(s) < |s| && g == w + SpaceEnd(s[w..])
    ensures Pieces(s) == [s[..w]] + Pieces(s[g..])
  {
  }

  /** The first piece is empty exactly when `s` is empty or starts with whitespace. */
  lemma PiecesFirst(s: string)
    ensures Pieces(s)[0] == [] <==> (s == [] || IsSpace(s[0]))
  {
    var w := WordEnd(s);
    if w == |s| {
      assert Pieces(s) == [s];
      assert s != [] ==> !IsSpace(s[0]);
    } else {
      var g := w + SpaceEnd(s[w..]);
      PiecesStep(s, w, g);
      assert Pieces(s)[0] == s[..w];
      assert w == 0 <==> IsSpace(s[0]);
    }
  }

  lemma WordPrefixNoSpace(s: string)
    ensures NoSpace(s[..WordEnd(s)])
  {
    WordEndFacts(s);
    forall k | 0 <= k < WordEnd(s) ensures !IsSpace(s[..WordEnd(s)][k]) {
      assert s[..WordEnd(s)][k] == s[k];
    }
  }

  lemma NoSpaceCons(x: string, rest: seq<string>)
    requires NoSpace(x)
    requires forall i :: 0 <= i < |rest| ==> NoSpace(rest[i])
    ensures forall i :: 0 <= i < |[x] + rest| ==> NoSpace(([x] + rest)[i])
  {
    forall i | 0 <= i < |[x] + rest| ensures NoSpace(([x] + rest)[i]) {
      if i > 0 { assert ([x] + rest)[i] == rest[i - 1]; }
    }
  }

  /** No piece holds whitespace. */
  lemma {:induction false} PiecesNoSpace(s: string)
    ensures forall i :: 0 <= i < |Pieces(s)| ==> NoSpace(Pieces(s)[i])
    decreases |s|
  {
    var w := WordEnd(s);
    WordPrefixNoSpace(s);
    if w == |s| {
      assert s[..w] == s;
      assert Pieces(s) == [s];
    } else {
      var g := w + SpaceEnd(s[w..]);
      PiecesNoSpace(s[g..]);
      PiecesStep(s, w, g);
      NoSpaceCons(s[..w], Pieces(s[g..]));
    }
  }

  lemma NonEmptyCons(x: string, rest: seq<string>)
    requires forall i :: 0 < i < |rest| - 1 ==> rest[i] != []
    requires |rest| > 1 ==> rest[0] != []
    ensures forall i :: 0 < i < |[x] + rest| - 1 ==> ([x] + rest)[i] != []
  {
    forall i | 0 < i < |[x] + rest| - 1 ensures ([x] + rest)[i] != [] {
      assert ([x] + rest)[i] == rest[i - 1];
    }
  }

  /** Only the first and the last piece can be empty. */
  lemma {:induction false} PiecesInterior(s: string)
    ensures forall i :: 0 < i < |Pieces(s)| - 1 ==> Pieces(s)[i] != []
    decreases |s|
  {
    var w := WordEnd(s);
    if w < |s| {
      var g := w + SpaceEnd(s[w..]);
      var t := s[g..];
      PiecesInterior(t);
      assert |Pieces(t)| > 1 ==> Pieces(t)[0] != [] by {
        if g < |s| {
          SpaceEndFacts(s[w..]);
          assert t[0] == s[w..][g - w];
          PiecesFirst(t);
        } else {
          assert t == [];
        }
      }
      PiecesStep(s, w, g);
      NonEmptyCons(s[..w], Pieces(t));
    }
  }

  /** Java's split drops the empty strings at the end of the array. */
  function DropTrailingEmpty(ps: seq<string>): (r: seq<string>)
    ensures |r| <= |ps| && r == ps[..|r|]
    ensures forall i :: |r| <= i < |ps| ==> ps[i] == []
    ensures r != [] ==> r[|r| - 1] != []
  {
    if ps == [] then []
    else if ps[|ps| - 1] == [] then DropTrailingEmpty(ps[..|ps| - 1])
    else ps
  }

  /**
   * `s.split("\\s+")`: with no match at all the whole string is the only
   * element (so "" gives [""]); otherwise the pieces around the matches,
   * without the trailing empty ones. A leading empty piece is kept.
   */
  function Split(s: string): (r: seq<string>)
    ensures |r| <= |s| + 1
    ensures s != [] && r != [] ==> r[|r| - 1] != []
  {
    if s == [] then [[]] else DropTrailingEmpty(Pieces(s))
  }

  /** The tokens of one line of a review: at most one more than the line has characters. */
  function Tokens(line: string): (r: seq<string>)
    ensures |r| <= |line| + 1
  {
    Split(ReplacePunct(ReplaceBreaks(line)))
  }

  // ---------------------------------------------------------------------------
  // Reference definitions for what splitting keeps

  /** The words of a sequence written one after the other. */
  function Concat(ws: seq<string>): string {
    if ws == [] then [] else ws[0] + Concat(ws[1..])
  }

  /** The characters of `s` that are not whitespace, in order. */
  function NonSpace(s: string): (r: string)
    ensures NoSpace(r)
  {
    if s == [] then []
    else (if IsSpace(s[0]) then [] else [s[0]]) + NonSpace(s[1..])
  }

  /** A token that can match a lexicon entry: non-empty, no whitespace, no punctuation. */
  predicate IsWord(w: string) {
    w != [] && NoSpace(w) && NoPunct(w)
  }

  lemma {:induction false} ConcatAppend(a: seq<string>, b: seq<string>)
    ensures Concat(a + b) == Concat(a) + Concat(b)
    decreases |a|
  {
    if a != [] {
      assert (a + b)[0] == a[0];
      assert (a + b)[1..] == a[1..] + b;
      ConcatAppend(a[1..], b);
      calc {
        Concat(a + b);
        a[0] + Concat(a[1..] + b);
        a[0] + (Concat(a[1..]) + Concat(b));
        (a[0] + Concat(a[1..])) + Concat(b);
      }
    } else {
      assert a + b == b;
    }
  }

  lemma {:induction false} ConcatEmpty(ws: seq<string>)
    ensures Concat(ws) == [] <==> forall i :: 0 <= i < |ws| ==> ws[i] == []
    decreases |ws|
  {
    if ws != [] {
      ConcatEmpty(ws[1..]);
      if Concat(ws) == [] {
        forall i | 0 <= i < |ws| ensures ws[i] == [] {
          if i > 0 { assert ws[i] == ws[1..][i - 1]; }
        }
      }
    }
  }

  /** A whitespace-free prefix survives dropping whitespace unchanged. */
  lemma {:induction false} NonSpaceWordPrefix(s: string, w: nat)
    requires w <= |s|
    requires forall k :: 0 <= k < w ==> !IsSpace(s[k])
    ensures NonSpace(s) == s[..w] + NonSpace(s[w..])
    decreases w
  {
    if w == 0 {
      assert s[w..] == s;
    } else {
      NonSpaceWordPrefix(s[1..], w - 1);
      assert s[1..][w - 1..] == s[w..];
      assert [s[0]] + s[1..][..w - 1] == s[..w];
    }
  }

  /** A leading whitespace run contributes nothing. */
  lemma {:induction false} NonSpaceGapPrefix(s: string, g: nat)
    requires g <= |s|
    requires forall k :: 0 <= k < g ==> IsSpace(s[k])
    ensures NonSpace(s) == NonSpace(s[g..])
    decreases g
  {
    if g == 0 {
      assert s[g..] == s;
    } else {
      NonSpaceGapPrefix(s[1..], g - 1);
      assert s[1..][g - 1..] == s[g..];
    }
  }

  /** Splitting into pieces loses exactly the whitespace. */
  lemma {:induction false} PiecesConcat(s: string)
    ensures Concat(Pieces(s)) == NonSpace(s)
    decreases |s|
  {
    var w := WordEnd(s);
    if w == |s| {
      assert Pieces(s) == [s];
      assert Concat([s]) == s + Concat([]);
      WordEndFacts(s);
      NonSpaceWordPrefix(s, w);
      assert s[w..] == [] && s[..w] == s;
    } else {
      var g := w + SpaceEnd(s[w..]);
      var rest := Pieces(s[g..]);
      var ps := [s[..w]] + rest;
      PiecesStep(s, w, g);
      assert ps[0] == s[..w] && ps[1..] == rest;
      assert Concat(ps) == s[..w] + Concat(rest);
      PiecesConcat(s[g..]);
      WordEndFacts(s);
      SpaceEndFacts(s[w..]);
      NonSpaceWordPrefix(s, w);
      NonSpaceGapPrefix(s[w..], g - w);
      assert s[w..][g - w..] == s[g..];
    }
  }

  /** Split keeps every non-whitespace character, in order, and nothing else. */
  lemma SplitConcat(s: string)
    ensures Concat(Split(s)) == NonSpace(s)
  {
    if s != [] {
      var ps := Pieces(s);
      var r := DropTrailingEmpty(ps);
      assert ps == r + ps[|r|..];
      ConcatAppend(r, ps[|r|..]);
      ConcatEmpty(ps[|r|..]);
      PiecesConcat(s);
    }
  }

  /**
   * The shape of Java's split: no token holds whitespace, only the first
   * token can be empty, the first token is empty exactly when the line is
   * empty or starts with whitespace before some non-whitespace, and there
   * are no tokens at all exactly when the line is non-empty whitespace.
   */
  lemma SplitShape(s: string)
    ensures forall i :: 0 <= i < |Split(s)| ==> NoSpace(Split(s)[i])
    ensures forall i :: 0 < i < |Split(s)| ==> Split(s)[i] != []
    ensures (|Split(s)| > 0 && Split(s)[0] == []) <==> (s == [] || (IsSpace(s[0]) && NonSpace(s) != []))
    ensures Split(s) == [] <==> (s != [] && NonSpace(s) == [])
  {
    SplitTokensShape(s);
    SplitEmpty(s);
    if s != [] && |Split(s)| > 0 {
      PiecesFirst(s);
      assert Split(s)[0] == Pieces(s)[0];
    }
  }

  /** Tokens hold no whitespace and all but the first are non-empty. */
  lemma SplitTokensShape(s: string)
    ensures forall i :: 0 <= i < |Split(s)| ==> NoSpace(Split(s)[i])
    ensures forall i :: 0 < i < |Split(s)| ==> Split(s)[i] != []
  {
    if s != [] {
      var ps := Pieces(s);
      var r := DropTrailingEmpty(ps);
      PiecesNoSpace(s);
      PiecesInterior(s);
      forall i | 0 <= i < |r| ensures NoSpace(r[i]) && (i > 0 ==> r[i] != []) {
        assert r[i] == ps[i];
      }
    }
  }

  /** There are no tokens at all exactly when a non-empty line is all whitespace. */
  lemma SplitEmpty(s: string)
    ensures Split(s) == [] <==> (s != [] && NonSpace(s) == [])
  {
    SplitConcat(s);
    ConcatEmpty(Split(s));
  }

  lemma NoPunctSlice(s: string, i: nat, j: nat)
    requires NoPunct(s) && i <= j <= |s|
    ensures NoPunct(s[i..j])
  {
    forall k | 0 <= k < j - i ensures !IsPunct(s[i..j][k]) {
      assert s[i..j][k] == s[i + k];
    }
  }

  lemma NoPunctCons(x: string, rest: seq<string>)
    requires NoPunct(x)
    requires forall i :: 0 <= i < |rest| ==> NoPunct(rest[i])
    ensures forall i :: 0 <= i < |[x] + rest| ==> NoPunct(([x] + rest)[i])
  {
    forall i | 0 <= i < |[x] + rest| ensures NoPunct(([x] + rest)[i]) {
      if i > 0 { assert ([x] + rest)[i] == rest[i - 1]; }
    }
  }

  lemma {:induction false} PiecesNoPunct(s: string)
    requires NoPunct(s)
    ensures forall i :: 0 <= i < |Pieces(s)| ==> NoPunct(Pieces(s)[i])
    decreases |s|
  {
    var w := WordEnd(s);
    if w == |s| {
      assert Pieces(s) == [s];
    } else {
      var g := w + SpaceEnd(s[w..]);
      NoPunctSlice(s, 0, w);
      NoPunctSlice(s, g, |s|);
      assert s[0..w] == s[..w] && s[g..|s|] == s[g..];
      PiecesNoPunct(s[g..]);
      PiecesStep(s, w, g);
      NoPunctCons(s[..w], Pieces(s[g..]));
    }
  }

  lemma SplitNoPunct(s: string)
    requires NoPunct(s)
    ensures forall i :: 0 <= i < |Split(s)| ==> NoPunct(Split(s)[i])
  {
    if s != [] {
      PiecesNoPunct(s);
      assert Split(s) == Pieces(s)[..|Split(s)|];
    }
  }

  // ---------------------------------------------------------------------------
  // Round trip: splitting words separated by whitespace gives the words back

  /** A run of whitespace, possibly empty. */
  predicate AllSpace(g: string) {
    forall k :: 0 <= k < |g| ==> IsSpace(g[k])
  }

  /** A non-empty run of whitespace. */
  predicate IsGap(g: string) {
    g != [] && AllSpace(g)
  }

  /** The words `ws` with the whitespace run `gaps[i]` between `ws[i]` and `ws[i + 1]`. */
  function Spaced(ws: seq<string>, gaps: seq<string>): string
    requires |ws| == |gaps| + 1
    decreases |gaps|
  {
    if gaps == [] then ws[0] else ws[0] + gaps[0] + Spaced(ws[1..], gaps[1..])
  }

  /** A word that splitting gives back unchanged: non-empty and without whitespace. */
  predicate IsSplitWord(w: string) {
    w != [] && NoSpace(w)
  }

  /** Words that splitting gives back, with a non-empty whitespace run between each two. */
  predicate SpacedWords(ws: seq<string>, gaps: seq<string>) {
    |ws| == |gaps| + 1 &&
    (forall i {:trigger IsSplitWord(ws[i])} :: 0 <= i < |ws| ==> IsSplitWord(ws[i])) &&
    (forall i {:trigger IsGap(gaps[i])} :: 0 <= i < |gaps| ==> IsGap(gaps[i]))
  }

  lemma SpacedWordsTail(ws: seq<string>, gaps: seq<string>)
    requires SpacedWords(ws, gaps) && gaps != []
    ensures SpacedWords(ws[1..], gaps[1..])
    ensures IsSplitWord(ws[0]) && IsGap(gaps[0])
  {
    forall i | 0 <= i < |ws[1..]| ensures IsSplitWord(ws[1..][i]) {
      assert ws[1..][i] == ws[i + 1] && IsSplitWord(ws[i + 1]);
    }
    forall i | 0 <= i < |gaps[1..]| ensures IsGap(gaps[1..][i]) {
      assert gaps[1..][i] == gaps[i + 1] && IsGap(gaps[i + 1]);
    }
  }

  lemma SpacedStart(ws: seq<string>, gaps: seq<string>)
    requires SpacedWords(ws, gaps)
    ensures Spaced(ws, gaps) != [] && !IsSpace(Spaced(ws, gaps)[0])
  {
    assert IsSplitWord(ws[0]);
    if gaps != [] {
      assert Spaced(ws, gaps) == ws[0] + (gaps[0] + Spaced(ws[1..], gaps[1..]));
    }
  }

  lemma {:induction false} WordEndOfWord(w: string, rest: string)
    requires NoSpace(w)
    requires rest == [] || IsSpace(rest[0])
    ensures WordEnd(w + rest) == |w|
    decreases |w|
  {
    if w != [] {
      assert (w + rest)[1..] == w[1..] + rest;
      WordEndOfWord(w[1..], rest);
    } else {
      assert w + rest == rest;
    }
  }

  lemma {:induction false} SpaceEndOfGap(g: string, rest: string)
    requires AllSpace(g)
    requires rest == [] || !IsSpace(rest[0])
    ensures SpaceEnd(g + rest) == |g|
    decreases |g|
  {
    if g != [] {
      assert (g + rest)[1..] == g[1..] + rest;
      SpaceEndOfGap(g[1..], rest);
    } else {
      assert g + rest == rest;
    }
  }

  /**
   * After a whitespace-free piece `w` and a whitespace run, splitting goes on
   * with what follows the run. With `w` empty this is a line that starts
   * with whitespace: its first piece is empty.
   */
  lemma PiecesAfterWord(s: string, w: string, g: string, tail: string)
    requires s == w + g + tail
    requires NoSpace(w) && IsGap(g)
    requires tail == [] || !IsSpace(tail[0])
    ensures Pieces(s) == [w] + Pieces(tail)
  {
    assert s == w + (g + tail);
    WordEndOfWord(w, g + tail);
    assert s[|w|..] == g + tail;
    SpaceEndOfGap(g, tail);
    PiecesStep(s, |w|, |w| + |g|);
    assert s[..|w|] == w;
    assert s[|w| + |g|..] == tail;
  }

  /** The pieces of one word: the word, and an empty piece when a whitespace run follows it. */
  lemma PiecesWord(s: string, w: string, trail: string)
    requires s == w + trail
    requires IsSplitWord(w)
    requires trail == [] || IsGap(trail)
    ensures Pieces(s) == [w] + (if trail == [] then [] else [""])
  {
    if trail == [] {
      WordEndOfWord(w, []);
      assert w + [] == w && s == w;
    } else {
      PiecesAfterWord(s, w, trail, []);
      assert Pieces([]) == [""];
    }
  }

  lemma ConsShift(x: seq<string>, ws: seq<string>, t: seq<string>)
    requires ws != []
    requires x == [ws[0]] + (ws[1..] + t)
    ensures x == ws + t
  {
    assert ws == [ws[0]] + ws[1..];
  }

  /** The pieces of spaced words start with the first word, then go on with the rest. */
  lemma PiecesSpacedStep(ws: seq<string>, gaps: seq<string>, trail: string)
    requires |ws| == |gaps| + 1 && gaps != []
    requires NoSpace(ws[0]) && IsGap(gaps[0])
    requires Spaced(ws[1..], gaps[1..]) != [] && !IsSpace(Spaced(ws[1..], gaps[1..])[0])
    ensures Pieces(Spaced(ws, gaps) + trail) == [ws[0]] + Pieces(Spaced(ws[1..], gaps[1..]) + trail)
  {
    var rest := Spaced(ws[1..], gaps[1..]) + trail;
    assert rest[0] == Spaced(ws[1..], gaps[1..])[0];
    PiecesAfterWord(Spaced(ws, gaps) + trail, ws[0], gaps[0], rest);
  }

  /** The pieces of spaced words are the words, and a trailing run adds one empty piece. */
  lemma {:induction false} PiecesSpaced(ws: seq<string>, gaps: seq<string>, trail: string)
    requires SpacedWords(ws, gaps)
    requires trail == [] || IsGap(trail)
    ensures Pieces(Spaced(ws, gaps) + trail) == ws + (if trail == [] then [] else [""])
    decreases |gaps|
  {
    var back: seq<string> := if trail == [] then [] else [""];
    if gaps == [] {
      assert IsSplitWord(ws[0]);
      PiecesWord(Spaced(ws, gaps) + trail, ws[0], trail);
      assert ws == [ws[0]];
    } else {
      SpacedWordsTail(ws, gaps);
      SpacedStart(ws[1..], gaps[1..]);
      PiecesSpacedStep(ws, gaps, trail);
      PiecesSpaced(ws[1..], gaps[1..], trail);
      ConsShift(Pieces(Spaced(ws, gaps) + trail), ws, back);
    }
  }

  /** Java's split drops one trailing empty string after a non-empty one, and nothing else. */
  lemma DropTrailingEmptyAfterWord(ps: seq<string>)
    requires ps != [] && ps[|ps| - 1] != []
    ensures DropTrailingEmpty(ps) == ps
    ensures DropTrailingEmpty(ps + [""]) == ps
  {
    assert (ps + [""])[..|ps|] == ps;
  }

  /** When the pieces end in a non-empty one, perhaps followed by one empty one, split keeps up to that one. */
  lemma SplitAfterWord(s: string, front: seq<string>, ws: seq<string>, back: seq<string>)
    requires s != []
    requires ws != [] && ws[|ws| - 1] != []
    requires back == [] || back == [""]
    requires Pieces(s) == front + (ws + back)
    ensures Split(s) == front + ws
  {
    var ps := front + ws;
    assert ps[|ps| - 1] == ws[|ws| - 1];
    assert Pieces(s) == ps + back;
    DropTrailingEmptyAfterWord(ps);
    if back == [] { assert ps + back == ps; }
  }

  /** A whitespace run in front of a line that starts with a word adds one empty first piece. */
  lemma PiecesLead(s: string, lead: string, x: string)
    requires s == lead + x
    requires lead == [] || IsGap(lead)
    requires x != [] && !IsSpace(x[0])
    ensures Pieces(s) == (if lead == [] then [] else [""]) + Pieces(x)
  {
    if lead != [] {
      PiecesAfterWord(s, [], lead, x);
    } else {
      assert s == x;
    }
  }

  lemma SpacedTrailStart(ws: seq<string>, gaps: seq<string>, trail: string)
    requires SpacedWords(ws, gaps)
    ensures Spaced(ws, gaps) + trail != [] && !IsSpace((Spaced(ws, gaps) + trail)[0])
  {
    SpacedStart(ws, gaps);
    assert (Spaced(ws, gaps) + trail)[0] == Spaced(ws, gaps)[0];
  }

  /** What splitting needs to know about spaced words followed by an optional whitespace run. */
  lemma SpacedPieces(ws: seq<string>, gaps: seq<string>, trail: string)
    requires SpacedWords(ws, gaps)
    requires trail == [] || IsGap(trail)
    ensures Spaced(ws, gaps) + trail != [] && !IsSpace((Spaced(ws, gaps) + trail)[0])
    ensures ws != [] && ws[|ws| - 1] != []
    ensures Pieces(Spaced(ws, gaps) + trail) == ws + (if trail == [] then [] else [""])
  {
    SpacedTrailStart(ws, gaps, trail);
    PiecesSpaced(ws, gaps, trail);
    assert IsSplitWord(ws[|ws| - 1]);
  }

  /**
   * The tokens of a line made of an optional whitespace run and a rest that
   * starts with a word: one empty token for the run, then the pieces of the
   * rest without its last piece when that one is empty.
   */
  lemma SplitOfLine(s: string, lead: string, x: string, ws: seq<string>, back: seq<string>)
    requires s == lead + x
    requires lead == [] || IsGap(lead)
    requires x != [] && !IsSpace(x[0])
    requires ws != [] && ws[|ws| - 1] != []
    requires back == [] || back == [""]
    requires Pieces(x) == ws + back
    ensures Split(s) == (if lead == [] then [] else [""]) + ws
  {
    PiecesLead(s, lead, x);
    SplitAfterWord(s, if lead == [] then [] else [""], ws, back);
  }

  lemma StringAssoc(a: string, b: string, c: string)
    ensures a + b + c == a + (b + c)
  {
  }

  lemma SplitOfSpacedLine(lead: string, ws: seq<string>, gaps: seq<string>, trail: string)
    requires |ws| == |gaps| + 1
    requires lead == [] || IsGap(lead)
    requires trail == [] || IsGap(trail)
    requires Spaced(ws, gaps) + trail != [] && !IsSpace((Spaced(ws, gaps) + trail)[0])
    requires ws != [] && ws[|ws| - 1] != []
    requires Pieces(Spaced(ws, gaps) + trail) == ws + (if trail == [] then [] else [""])
    ensures Split(lead + Spaced(ws, gaps) + trail) == (if lead == [] then [] else [""]) + ws
  {
    StringAssoc(lead, Spaced(ws, gaps), trail);
    SplitOfLine(lead + Spaced(ws, gaps) + trail, lead, Spaced(ws, gaps) + trail, ws, if trail == [] then [] else [""]);
  }

  /**
   * `split` gives back non-empty whitespace-free words separated by any
   * non-empty whitespace runs. A run before the first word gives one leading
   * empty token; a run after the last word gives nothing.
   */
  lemma SplitSpaced(lead: string, ws: seq<string>, gaps: seq<string>, trail: string)
    requires SpacedWords(ws, gaps)
    requires lead == [] || IsGap(lead)
    requires trail == [] || IsGap(trail)
    ensures Split(lead + Spaced(ws, gaps) + trail) == (if lead == [] then [] else [""]) + ws
  {
    SpacedPieces(ws, gaps, trail);
    SplitOfSpacedLine(lead, ws, gaps, trail);
  }

  lemma NoPunctAppend(a: string, b: string)
    requires NoPunct(a) && NoPunct(b)
    ensures NoPunct(a + b)
  {
    forall k | 0 <= k < |a + b| ensures !IsPunct((a + b)[k]) {
      if k >= |a| { assert (a + b)[k] == b[k - |a|]; }
    }
  }

  lemma {:induction false} SpacedNoPunct(ws: seq<string>, gaps: seq<string>)
    requires |ws| == |gaps| + 1
    requires forall i :: 0 <= i < |ws| ==> NoPunct(ws[i])
    requires forall i :: 0 <= i < |gaps| ==> AllSpace(gaps[i])
    ensures NoPunct(Spaced(ws, gaps))
    decreases |gaps|
  {
    if gaps != [] {
      assert ws[1..][0] == ws[1];
      SpacedNoPunct(ws[1..], gaps[1..]);
      assert AllSpace(gaps[0]);
      NoPunctAppend(ws[0], gaps[0]);
      NoPunctAppend(ws[0] + gaps[0], Spaced(ws[1..], gaps[1..]));
    }
  }

  /**
   * A line of words without whitespace or punctuation, separated by any
   * whitespace runs, tokenises back to exactly those words, letter case
   * included (tokenisation never lower-cases). Whitespace before the first
   * word gives one leading empty token.
   */
  lemma TokensSpaced(lead: string, ws: seq<string>, gaps: seq<string>, trail: string)
    requires |ws| == |gaps| + 1
    requires forall i :: 0 <= i < |ws| ==> IsWord(ws[i])
    requires forall i :: 0 <= i < |gaps| ==> IsGap(gaps[i])
    requires lead == [] || IsGap(lead)
    requires trail == [] || IsGap(trail)
    ensures Tokens(lead + Spaced(ws, gaps) + trail) == (if lead == [] then [] else [""]) + ws
  {
    var s := lead + Spaced(ws, gaps) + trail;
    SpacedNoPunct(ws, gaps);
    NoPunctAppend(lead, Spaced(ws, gaps));
    NoPunctAppend(lead + Spaced(ws, gaps), trail);
    CleanLineUnchanged(s);
    SplitSpaced(lead, ws, gaps, trail);
  }

  /** Normalisation leaves a line without punctuation as it is. */
  lemma CleanLineUnchanged(s: string)
    requires NoPunct(s)
    ensures ReplacePunct(ReplaceBreaks(s)) == s
  {
    forall i | 0 <= i && i + |BREAK| <= |s| ensures !BreakAt(s, i) {
      assert s[i..i + |BREAK|][0] == s[i] != BREAK[0];
    }
    ReplaceBreaksIdentity(s);
    ReplacePunctClean(s);
  }

  /** A line without '<' holds no `<br />`. */
  lemma NoLessThanNoBreak(s: string)
    requires forall k :: 0 <= k < |s| ==> s[k] != '<'
    ensures forall i :: !BreakAt(s, i)
  {
    forall i | 0 <= i && i + |BREAK| <= |s| ensures !BreakAt(s, i) {
      assert s[i..i + |BREAK|][0] == s[i] != BREAK[0];
    }
  }

  lemma BreakAfterPunct(w1: string, p: string, w2: string)
    requires IsWord(w1) && IsWord(w2)
    requires forall k :: 0 <= k < |p| ==> IsPunct(p[k]) && p[k] != '<'
    ensures ReplaceBreaks(w1 + p + BREAK + w2) == w1 + p + " " + w2
  {
    var a := w1 + p;
    forall k | 0 <= k < |a| ensures a[k] != '<' {
      if k < |w1| { assert a[k] == w1[k] && !IsPunct(w1[k]); } else { assert a[k] == p[k - |w1|]; }
    }
    NoLessThanNoBreak(a);
    ReplaceBreaksSplice(a, w2);
    forall k | 0 <= k < |w2| ensures w2[k] != '<' {
      assert !IsPunct(w2[k]);
    }
    NoLessThanNoBreak(w2);
    ReplaceBreaksIdentity(w2);
  }

  /** A run of punctuation becomes spaces, so with one more space it is a whitespace run. */
  lemma PunctRunBecomesGap(p: string)
    requires forall k :: 0 <= k < |p| ==> IsPunct(p[k])
    ensures IsGap(ReplacePunct(p) + " ")
  {
    ReplacePunctSpec(p);
    var g := ReplacePunct(p) + " ";
    forall k | 0 <= k < |g| ensures IsSpace(g[k]) {
      if k < |p| { assert g[k] == ReplacePunct(p)[k] == ' '; }
    }
  }

  lemma PunctBecomesGap(w1: string, p: string, w2: string)
    requires NoPunct(w1) && NoPunct(w2)
    ensures ReplacePunct(w1 + p + " " + w2) == w1 + (ReplacePunct(p) + " ") + w2
  {
    calc {
      ReplacePunct(w1 + p + " " + w2);
    == { ReplacePunctAppend(w1 + p + " ", w2); }
      ReplacePunct(w1 + p + " ") + ReplacePunct(w2);
    == { ReplacePunctClean(w2); }
      ReplacePunct(w1 + p + " ") + w2;
    == { ReplacePunctAppend(w1 + p, " "); assert ReplacePunct(" ") == " "; }
      ReplacePunct(w1 + p) + " " + w2;
    == { ReplacePunctAppend(w1, p); ReplacePunctClean(w1); }
      w1 + ReplacePunct(p) + " " + w2;
    }
    assert w1 + ReplacePunct(p) + " " + w2 == w1 + (ReplacePunct(p) + " ") + w2;
  }

  /**
   * Punctuation followed by a `<br />` between two words turns into
   * whitespace, so it separates the words as a space would: a line like
   * "Great!<br />Really" gives the tokens "Great" and "Really".
   */
  lemma TokensAcrossBreak(w1: string, p: string, w2: string)
    requires IsWord(w1) && IsWord(w2)
    requires forall k :: 0 <= k < |p| ==> IsPunct(p[k]) && p[k] != '<'
    ensures Tokens(w1 + p + BREAK + w2) == [w1, w2]
  {
    BreakAfterPunct(w1, p, w2);
    PunctBecomesGap(w1, p, w2);
    PunctRunBecomesGap(p);
    var g := ReplacePunct(p) + " ";
    assert Spaced([w1, w2], [g]) == w1 + g + w2 by {
      assert [w1, w2][1..] == [w2];
    }
    assert SpacedWords([w1, w2], [g]);
    SplitSpaced([], [w1, w2], [g], []);
    assert [] + (w1 + g + w2) + [] == w1 + g + w2;
  }

  /** No token carries whitespace or punctuation, and only the first can be empty. */
  lemma TokensClean(line: string)
    ensures forall i :: 0 <= i < |Tokens(line)| ==> NoSpace(Tokens(line)[i]) && NoPunct(Tokens(line)[i])
    ensures forall i :: 0 < i < |Tokens(line)| ==> Tokens(line)[i] != []
  {
    var s := ReplacePunct(ReplaceBreaks(line));
    ReplacePunctSpec(ReplaceBreaks(line));
    SplitShape(s);
    SplitNoPunct(s);
  }
}
