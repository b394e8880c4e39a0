/**
 * The candidate-elimination solver of src/solver.rs.
 *
 * A guess is scored by the mean size of the class of candidates that give
 * the same feedback as the candidate the class is taken for.  The mean is
 * `total / N` with `N` the number of candidates and `total` the sum of the
 * class sizes; the model keeps the integer numerator `total` and compares
 * numerators over the common denominator `N`, with the thresholds as the
 * exact fractions 0, 1/8 and 1/4.  With no candidates the mean is 0 / 0,
 * a NaN against which every comparison is false; the model keeps that.
 *
 * The iteration orders of the two hash sets the solver walks (the allowed
 * solutions and the guessable words) are explicit sequences.
 */
module Solver {
  import opened Letters
  import opened Feedback
  import opened Words
  import opened Sequences
  import opened Game

  /** A fraction `num / den`. */
  datatype Ratio = Ratio(num: nat, den: nat)

  datatype SolverMode = Best | Good | Fast
  {
    /** `SolverMode::value`: the fraction of the candidates a guess's mean
        class size may reach and still be played at once. */
    function Threshold(): (t: Ratio)
      ensures 0 < t.den && t.num < t.den
      ensures Best? <==> t.num == 0
      ensures Good? ==> 8 * t.num == t.den
      ensures Fast? ==> 4 * t.num == t.den
    {
      match this
      case Best => Ratio(0, 1)
      case Good => Ratio(1, 8)
      case Fast => Ratio(1, 4)
    }
  }

  /** The word played first, without scoring. */
  const FirstGuess: string := "roast"

  predicate AllPlayable(ws: seq<string>, n: nat)
  {
    forall i :: 0 <= i < |ws| ==> Playable(ws[i], n)
  }

  // ---------------------------------------------------------------------
  // Filtering

  /** `solution` gives the feedback `gr` to its guess. */
  predicate Consistent(gr: GuessResult, n: nat, solution: string)
  {
    Checkable(gr.guess, solution, n) && Checked(gr.guess, solution, n) == gr
  }

  /** The candidates consistent with `gr`, in their order. */
  function Filtered(gr: GuessResult, n: nat, ss: seq<string>): seq<string>
  {
    if ss == [] then []
    else (if Consistent(gr, n, ss[0]) then [ss[0]] else []) + Filtered(gr, n, ss[1..])
  }

  /** A candidate survives exactly when it is consistent with the feedback. */
  lemma {:induction false} FilteredMembers(gr: GuessResult, n: nat, ss: seq<string>, x: string)
    ensures x in Filtered(gr, n, ss) <==> x in ss && Consistent(gr, n, x)
  {
    if ss != [] {
      FilteredMembers(gr, n, ss[1..], x);
      assert ss == [ss[0]] + ss[1..];
    }
  }

  /** Filtering keeps the survivors in their original order. */
  lemma {:induction false} FilteredInOrder(gr: GuessResult, n: nat, ss: seq<string>)
    ensures IsSubsequence(Filtered(gr, n, ss), ss)
    ensures |Filtered(gr, n, ss)| <= |ss|
  {
    if ss != [] {
      FilteredInOrder(gr, n, ss[1..]);
      var kept := Filtered(gr, n, ss);
      if Consistent(gr, n, ss[0]) {
        assert kept[0] == ss[0] && kept[1..] == Filtered(gr, n, ss[1..]);
      } else {
        assert kept == Filtered(gr, n, ss[1..]);
        SubsequenceSkip(kept, ss);
      }
      SubsequenceLength(kept, ss);
    }
  }

  /** Filtering twice by the same feedback is filtering once. */
  lemma {:induction false} FilteredIdempotent(gr: GuessResult, n: nat, ss: seq<string>)
    ensures Filtered(gr, n, Filtered(gr, n, ss)) == Filtered(gr, n, ss)
  {
    if ss != [] {
      FilteredIdempotent(gr, n, ss[1..]);
      var kept := Filtered(gr, n, ss);
      if Consistent(gr, n, ss[0]) {
        assert kept[0] == ss[0] && kept[1..] == Filtered(gr, n, ss[1..]);
        assert Filtered(gr, n, kept) == [kept[0]] + Filtered(gr, n, kept[1..]);
      } else {
        assert kept == Filtered(gr, n, ss[1..]);
      }
    }
  }

  /** Filtering distributes over concatenation. */
  lemma {:induction false} FilteredAppend(gr: GuessResult, n: nat, xs: seq<string>, ys: seq<string>)
    ensures Filtered(gr, n, xs + ys) == Filtered(gr, n, xs) + Filtered(gr, n, ys)
  {
    if xs == [] {
      assert xs + ys == ys;
    } else {
      assert (xs + ys)[1..] == xs[1..] + ys;
      FilteredAppend(gr, n, xs[1..], ys);
    }
  }

  /** Filtering a prefix one longer decides the next candidate after the rest. */
  lemma FilteredSnoc(gr: GuessResult, n: nat, ss: seq<string>, i: nat)
    requires i < |ss|
    ensures Filtered(gr, n, ss[..i + 1]) == Filtered(gr, n, ss[..i]) + (if Consistent(gr, n, ss[i]) then [ss[i]] else [])
  {
    PrefixSnoc(ss, i);
    FilteredAppend(gr, n, ss[..i], [ss[i]]);
  }

  /** Every candidate can be checked against the guess of `gr`. */
  predicate CheckableAll(g: Word, n: nat, ss: seq<string>)
  {
    forall i :: 0 <= i < |ss| ==> Checkable(g, ss[i], n)
  }

  /** `filter_solutions`: `retain` with the candidates that reproduce `gr`. */
  method FilterSolutions(gr: GuessResult, n: nat, solutions: seq<string>) returns (kept: seq<string>)
    requires CheckableAll(gr.guess, n, solutions)
    ensures kept == Filtered(gr, n, solutions)
  {
    kept := [];
    for i := 0 to |solutions|
      invariant kept == Filtered(gr, n, solutions[..i])
    {
      var res := Check(gr.guess, solutions[i], n);
      FilteredSnoc(gr, n, solutions, i);
      assert gr == res <==> Consistent(gr, n, solutions[i]);
      if gr == res {
        kept := kept + [solutions[i]];
      }
    }
    assert solutions[..|solutions|] == solutions;
  }

  /** `count_solutions`: how many candidates reproduce `gr`. */
  method CountSolutions(gr: GuessResult, n: nat, solutions: seq<string>) returns (sum: nat)
    requires CheckableAll(gr.guess, n, solutions)
    ensures sum == |Filtered(gr, n, solutions)|
  {
    sum := 0;
    for i := 0 to |solutions|
      invariant sum == |Filtered(gr, n, solutions[..i])|
    {
      var res := Check(gr.guess, solutions[i], n);
      FilteredSnoc(gr, n, solutions, i);
      assert gr == res <==> Consistent(gr, n, solutions[i]);
      if gr == res {
        sum := sum + 1;
      }
    }
    assert solutions[..|solutions|] == solutions;
  }

  /** The candidates left after the feedback of every past guess, in order. */
  function FilterAll(ss: seq<string>, history: seq<GuessResult>, n: nat): seq<string>
  {
    if history == [] then ss
    else Filtered(history[|history| - 1], n, FilterAll(ss, history[..|history| - 1], n))
  }

  /** A solution every past feedback was computed against is never filtered out. */
  lemma {:induction false} FilterAllKeepsSolution(ss: seq<string>, history: seq<GuessResult>, n: nat, solution: string)
    requires solution in ss
    requires forall k :: 0 <= k < |history| ==> Consistent(history[k], n, solution)
    ensures solution in FilterAll(ss, history, n)
  {
    if history != [] {
      var last := |history| - 1;
      FilterAllKeepsSolution(ss, history[..last], n, solution);
      FilteredMembers(history[last], n, FilterAll(ss, history[..last], n), solution);
    }
  }

  lemma FilterAllSnoc(ss: seq<string>, history: seq<GuessResult>, gr: GuessResult, n: nat)
    ensures FilterAll(ss, history + [gr], n) == Filtered(gr, n, FilterAll(ss, history, n))
  {
    assert (history + [gr])[..|history|] == history;
  }

  /** Filtering by one more feedback of a history. */
  lemma FilterAllPrefix(ss: seq<string>, history: seq<GuessResult>, k: nat, n: nat)
    requires k < |history|
    ensures FilterAll(ss, history[..k + 1], n) == Filtered(history[k], n, FilterAll(ss, history[..k], n))
  {
    assert history[..k + 1][..k] == history[..k];
  }

  /** One more feedback keeps an ordered selection of the candidates, inside
      any set that held them all, and keeps every consistent candidate. */
  lemma FilterStep(gr: GuessResult, n: nat, before: seq<string>, within: set<string>, x: string)
    requires forall s :: s in before ==> s in within
    ensures IsSubsequence(Filtered(gr, n, before), before)
    ensures forall s :: s in Filtered(gr, n, before) ==> s in within
    ensures x in before && Consistent(gr, n, x) ==> x in Filtered(gr, n, before)
  {
    FilteredInOrder(gr, n, before);
    forall s | s in Filtered(gr, n, before) ensures s in within {
      FilteredMembers(gr, n, before, s);
    }
    FilteredMembers(gr, n, before, x);
  }

  /** Filtering by a longer history only removes candidates. */
  lemma {:induction false} FilterAllShrinks(ss: seq<string>, history: seq<GuessResult>, n: nat, x: string)
    requires x in FilterAll(ss, history, n)
    ensures x in ss
  {
    if history != [] {
      var last := |history| - 1;
      FilteredMembers(history[last], n, FilterAll(ss, history[..last], n), x);
      FilterAllShrinks(ss, history[..last], n, x);
    }
  }

  // ---------------------------------------------------------------------
  // Scoring

  function Sum(ns: seq<nat>): nat
  {
    if ns == [] then 0 else ns[0] + Sum(ns[1..])
  }

  /** For each candidate, the number of candidates giving the same feedback to `g`. */
  function ClassSizes(g: Word, n: nat, ss: seq<string>): (cs: seq<nat>)
    requires CheckableAll(g, n, ss)
    ensures |cs| == |ss|
  {
    seq(|ss|, i requires 0 <= i < |ss| => |Filtered(Checked(g, ss[i], n), n, ss)|)
  }

  lemma ClassSizesStep(g: Word, n: nat, ss: seq<string>, i: nat, c: nat)
    requires CheckableAll(g, n, ss) && i < |ss|
    requires c == |Filtered(Checked(g, ss[i], n), n, ss)|
    ensures ClassSizes(g, n, ss)[..i + 1] == ClassSizes(g, n, ss)[..i] + [c]
  {
    PrefixSnoc(ClassSizes(g, n, ss), i);
  }

  /** The numerator of `compute_expected_n_solutions` for a word of the vocabulary. */
  function Score(v: string, n: nat, ss: seq<string>): nat
    requires Playable(v, n) && AllPlayable(ss, n)
  {
    Sum(ClassSizes(WordFromString(v), n, ss))
  }

  lemma {:induction false} SumBounds(ns: seq<nat>, lo: nat, hi: nat)
    requires forall i :: 0 <= i < |ns| ==> lo <= ns[i] <= hi
    ensures |ns| * lo <= Sum(ns) <= |ns| * hi
  {
    if ns != [] {
      SumBounds(ns[1..], lo, hi);
      MulSucc(|ns[1..]|, lo);
      MulSucc(|ns[1..]|, hi);
    }
  }

  lemma MulSucc(m: nat, x: nat)
    ensures (m + 1) * x == x + m * x
  {
  }

  /** Every candidate is in its own class, so each class has between 1 and
      N members and the numerator lies between N and N * N. */
  lemma ScoreBounds(v: string, n: nat, ss: seq<string>)
    requires Playable(v, n) && AllPlayable(ss, n)
    ensures |ss| <= Score(v, n, ss) <= |ss| * |ss|
  {
    var g := WordFromString(v);
    var cs := ClassSizes(g, n, ss);
    forall i | 0 <= i < |ss| ensures 1 <= cs[i] <= |ss| {
      var gr := Checked(g, ss[i], n);
      FilteredMembers(gr, n, ss, ss[i]);
      FilteredInOrder(gr, n, ss);
    }
    SumBounds(cs, 1, |ss|);
  }

  /** `compute_expected_n_solutions`: the class size of every candidate,
      then their sum and their number; the mean is `sum / count`. */
  method ComputeExpectedN(g: Word, n: nat, possible: seq<string>) returns (sum: nat, count: nat)
    requires CheckableAll(g, n, possible)
    ensures sum == Sum(ClassSizes(g, n, possible)) && count == |possible|
  {
    var ns: seq<nat> := [];
    for i := 0 to |possible|
      invariant ns == ClassSizes(g, n, possible)[..i]
    {
      var res := Check(g, possible[i], n);
      var c := CountSolutions(res, n, possible);
      ClassSizesStep(g, n, possible, i, c);
      ns := ns + [c];
    }
    assert ns == ClassSizes(g, n, possible);
    sum, count := 0, 0;
    for i := 0 to |ns|
      invariant sum + Sum(ns[i..]) == Sum(ns) && count == i
    {
      assert ns[i..][1..] == ns[i + 1..];
      sum := sum + ns[i];
      count := count + 1;
    }
    assert ns[|ns|..] == [];
  }

  // ---------------------------------------------------------------------
  // Choosing a guess

  /** The mean `sum / count` is at most `bound * t` (the comparison of
      `find_guess`); never when `count` is 0, where the mean is a NaN. */
  function MeanWithin(sum: nat, count: nat, bound: nat, t: Ratio): (b: bool)
    ensures b ==> 0 < count
    ensures 0 < count && 0 < t.den ==>
              (b <==> (sum as real) / (count as real) <= (bound as real) * ((t.num as real) / (t.den as real)))
  {
    0 < count && t.den * sum <= t.num * bound * count
  }

  /** A score fires when its mean is within the mode's share of the candidates. */
  predicate Fires(mode: SolverMode, total: nat, count: nat)
  {
    MeanWithin(total, count, count, mode.Threshold())
  }

  /** With the Best threshold of 0 no guess is played early while candidates remain. */
  lemma BestNeverFires(v: string, n: nat, ss: seq<string>)
    requires Playable(v, n) && AllPlayable(ss, n)
    ensures !Fires(Best, Score(v, n, ss), |ss|)
  {
    ScoreBounds(v, n, ss);
  }

  /** A stricter threshold fires only where a looser one does. */
  lemma ThresholdsNested(total: nat, count: nat)
    ensures Fires(Best, total, count) ==> Fires(Good, total, count)
    ensures Fires(Good, total, count) ==> Fires(Fast, total, count)
  {
    if Fires(Good, total, count) {
      assert 8 * total <= count * count;
    }
  }

  /** The score of every word of the vocabulary, in order. */
  function Scores(vocab: seq<string>, n: nat, ss: seq<string>): (sc: seq<nat>)
    requires AllPlayable(vocab, n) && AllPlayable(ss, n)
    ensures |sc| == |vocab|
  {
    seq(|vocab|, k requires 0 <= k < |vocab| => Score(vocab[k], n, ss))
  }

  lemma ScoreAt(vocab: seq<string>, n: nat, ss: seq<string>, i: nat, total: nat)
    requires AllPlayable(vocab, n) && AllPlayable(ss, n) && i < |vocab|
    requires total == Sum(ClassSizes(WordFromString(vocab[i]), n, ss))
    ensures Scores(vocab, n, ss)[i] == total
  {
  }

  /** Whether each word of the vocabulary is still a candidate. */
  function Candidacy(vocab: seq<string>, ss: seq<string>): (cs: seq<bool>)
    ensures |cs| == |vocab|
  {
    seq(|vocab|, k requires 0 <= k < |vocab| => vocab[k] in ss)
  }

  /** `j` is the first word whose score fires. */
  predicate FirstFiring(mode: SolverMode, scores: seq<nat>, count: nat, j: int)
  {
    && 0 <= j < |scores|
    && Fires(mode, scores[j], count)
    && forall k :: 0 <= k < j ==> !Fires(mode, scores[k], count)
  }

  predicate NoneFires(mode: SolverMode, scores: seq<nat>, count: nat)
  {
    NoneFiresBefore(mode, scores, count, |scores|)
  }

  predicate NoneFiresBefore(mode: SolverMode, scores: seq<nat>, count: nat, upto: nat)
    requires upto <= |scores|
  {
    forall k :: 0 <= k < upto ==> !Fires(mode, scores[k], count)
  }

  /** At most one word is the first to fire, and none is when no word fires. */
  lemma FirstFiringUnique(mode: SolverMode, scores: seq<nat>, count: nat, i: int)
    ensures FirstFiring(mode, scores, count, i) ==> forall j :: FirstFiring(mode, scores, count, j) ==> j == i
    ensures NoneFires(mode, scores, count) ==> forall j :: !FirstFiring(mode, scores, count, j)
  {
  }

  /** Among the first `upto` words, `b` has the least score; among the words
      sharing it, `b` is the first candidate if one of them is a candidate,
      and the first of them otherwise. */
  predicate PreferredAmong(scores: seq<nat>, cand: seq<bool>, b: int, upto: nat)
    requires upto <= |scores| == |cand|
  {
    && 0 <= b < upto
    && (forall k :: 0 <= k < upto ==> scores[b] <= scores[k])
    && (forall k :: 0 <= k < b && scores[k] == scores[b] ==> !cand[k] && cand[b])
    && (!cand[b] ==> forall k :: 0 <= k < upto && scores[k] == scores[b] ==> !cand[k])
  }

  /** The word `find_guess` settles on when no word fires: the preferred
      one, or the first word when there are no candidates (every comparison
      with a NaN mean is false). */
  predicate Preferred(scores: seq<nat>, cand: seq<bool>, count: nat, b: int)
    requires |scores| == |cand|
  {
    if count == 0 then b == 0 && 0 < |scores| else PreferredAmong(scores, cand, b, |scores|)
  }

  /** One step of the selection loop keeps `b` preferred: a strictly lower
      score wins, an equal one wins only as a candidate over a non-candidate. */
  lemma PreferredStep(scores: seq<nat>, cand: seq<bool>, b: int, i: nat)
    requires i < |scores| == |cand| && PreferredAmong(scores, cand, b, i)
    ensures var b' := if scores[i] == scores[b] && !cand[b] && cand[i] then i
                      else if scores[i] < scores[b] then i else b;
            PreferredAmong(scores, cand, b', i + 1)
  {
  }

  /** The state of `find_guess` after the first `i` words, none of which fired:
      `best` is the score of the word `b` kept so far, or the ceiling
      `count * count` before the first word. */
  ghost predicate Scanned(mode: SolverMode, scores: seq<nat>, cand: seq<bool>, count: nat, b: nat, best: nat, i: nat)
    requires i <= |scores| == |cand|
  {
    && b < |scores| && (b < i || b == 0)
    && NoneFiresBefore(mode, scores, count, i)
    && (count == 0 ==> b == 0)
    && (0 < count && i == 0 ==> best == count * count)
    && (0 < count && 0 < i ==> best == scores[b] && PreferredAmong(scores, cand, b, i))
  }

  /** One more word that does not fire: the kept word changes exactly as
      `find_guess` changes it. */
  lemma ScanStep(mode: SolverMode, scores: seq<nat>, cand: seq<bool>, count: nat,
                 b: nat, best: nat, i: nat, b': nat, best': nat)
    requires i < |scores| == |cand| && Scanned(mode, scores, cand, count, b, best, i)
    requires !Fires(mode, scores[i], count)
    requires 0 < count ==> scores[i] <= count * count
    requires (b', best') == if 0 < count && scores[i] == best && !cand[b] && cand[i] then (i, best)
                            else if 0 < count && scores[i] < best then (i, scores[i])
                            else (b, best)
    ensures Scanned(mode, scores, cand, count, b', best', i + 1)
  {
    if 0 < count && 0 < i {
      PreferredStep(scores, cand, b, i);
    }
  }

  /** After the last word, the kept word is the preferred one. */
  lemma ScanDone(mode: SolverMode, scores: seq<nat>, cand: seq<bool>, count: nat, b: nat, best: nat)
    requires 0 < |scores| == |cand| && Scanned(mode, scores, cand, count, b, best, |scores|)
    ensures NoneFires(mode, scores, count) && Preferred(scores, cand, count, b)
  {
  }

  /** The word `find_guess` plays from `vocab` against the candidates
      `possible`: the lone candidate when one is left; otherwise the first
      word of the vocabulary whose mean is within the threshold; otherwise,
      when no word is, the preferred word. */
  ghost predicate IsFoundGuess(mode: SolverMode, vocab: seq<string>, n: nat, possible: seq<string>, r: Word)
  {
    && AllPlayable(vocab, n) && AllPlayable(possible, n)
    && (|possible| == 1 ==> r == WordFromString(possible[0]))
    && (|possible| != 1 ==>
          forall j :: FirstFiring(mode, Scores(vocab, n, possible), |possible|, j) ==> r == WordFromString(vocab[j]))
    && (|possible| != 1 && NoneFires(mode, Scores(vocab, n, possible), |possible|) ==>
          exists b :: Preferred(Scores(vocab, n, possible), Candidacy(vocab, possible), |possible|, b)
                      && r == WordFromString(vocab[b]))
  }

  /** `find_guess`. */
  method FindGuess(mode: SolverMode, vocab: seq<string>, n: nat, possible: seq<string>) returns (r: Word)
    requires 0 < |vocab| && AllPlayable(vocab, n) && AllPlayable(possible, n)
    ensures IsFoundGuess(mode, vocab, n, possible, r)
    ensures exists w :: (w in vocab || w in possible) && r == WordFromString(w)
  {
    if |possible| == 1 {
      assert possible[0] in possible;
      return WordFromString(possible[0]);
    }
    ghost var scores, cand := Scores(vocab, n, possible), Candidacy(vocab, possible);
    var t := mode.Threshold();
    var currentN := |possible|;
    var b: nat := 0;
    var bestTotal: nat := currentN * currentN;
    for i := 0 to |vocab|
      invariant Scanned(mode, scores, cand, currentN, b, bestTotal, i)
    {
      var guess := WordFromString(vocab[i]);
      var total, count := ComputeExpectedN(guess, n, possible);
      ScoreAt(vocab, n, possible, i, total);
      if MeanWithin(total, count, currentN, t) {
        assert FirstFiring(mode, scores, currentN, i);
        FirstFiringUnique(mode, scores, currentN, i);
        assert vocab[i] in vocab;
        return guess;
      }
      ScoreBounds(vocab[i], n, possible);
      ghost var b0, best0 := b, bestTotal;
      if 0 < count && total == bestTotal && vocab[b] !in possible && vocab[i] in possible {
        b := i;
      } else if 0 < count && total < bestTotal {
        b := i;
        bestTotal := total;
      }
      ScanStep(mode, scores, cand, currentN, b0, best0, i, b, bestTotal);
    }
    ScanDone(mode, scores, cand, currentN, b, bestTotal);
    FirstFiringUnique(mode, scores, currentN, b);
    assert vocab[b] in vocab;
    r := WordFromString(vocab[b]);
  }

  // ---------------------------------------------------------------------
  // The solver

  /** Words taken from a list of playable words are playable. */
  lemma ListedPlayable(wl: WordList, n: nat, ws: seq<string>)
    requires forall w :: w in wl.words ==> Playable(w, n)
    requires forall w :: w in ws ==> w in wl.words
    ensures AllPlayable(ws, n)
  {
    forall i | 0 <= i < |ws| ensures Playable(ws[i], n) {
      assert ws[i] in ws;
    }
  }

  lemma PlayableCheckable(g: Word, n: nat, ws: seq<string>)
    requires Len(g) == n && AllPlayable(ws, n)
    ensures CheckableAll(g, n, ws)
  {
  }

  class Solver {
    const game: Game
    /** The order in which the allowed solutions were listed at construction. */
    ghost const order: seq<string>
    /** The order in which the guessable words are tried. */
    const vocabulary: seq<string>
    var possibleSolutions: seq<string>
    var firstGuess: bool

    ghost predicate Valid()
      reads this, game
    {
      && game.Valid()
      && (forall s :: s in order ==> s in game.wordlist.allowedSolutions)
      && (forall v :: v in vocabulary ==> v in game.wordlist.words)
      && 0 < |vocabulary|
      && possibleSolutions == FilterAll(order, game.guesses, game.letterCount)
      && (forall s :: s in possibleSolutions ==> s in game.wordlist.allowedSolutions)
      && (firstGuess <==> game.guesses == [])
    }

    /** `Solver::new`: the allowed solutions, narrowed by every guess already made. */
    constructor (game: Game, order: seq<string>, vocabulary: seq<string>)
      requires game.Valid()
      requires forall s :: s in order <==> s in game.wordlist.allowedSolutions
      requires forall v :: v in vocabulary <==> v in game.wordlist.words
      ensures Valid()
      ensures this.game == game && this.order == order && this.vocabulary == vocabulary
      ensures possibleSolutions == FilterAll(order, game.guesses, game.letterCount)
      ensures firstGuess <==> game.guesses == []
    {
      var n := game.letterCount;
      var possible := order;
      var first := true;
      for k := 0 to |game.guesses|
        invariant possible == FilterAll(order, game.guesses[..k], n)
        invariant forall s :: s in possible ==> s in game.wordlist.allowedSolutions
        invariant first <==> k == 0
      {
        first := false;
        var gr := game.guesses[k];
        ListedPlayable(game.wordlist, n, possible);
        FilterStep(gr, n, possible, game.wordlist.allowedSolutions, game.solution);
        FilterAllPrefix(order, game.guesses, k, n);
        possible := FilterSolutions(gr, n, possible);
      }
      assert game.guesses[..|game.guesses|] == game.guesses;
      this.game := game;
      this.order := order;
      this.vocabulary := vocabulary;
      possibleSolutions := possible;
      firstGuess := first;
    }

    /** The word `Solver::guess` plays: "roast" on the first call, the word
        `find_guess` chooses afterwards; always a word of the list. */
    method NextGuess(mode: SolverMode) returns (guess: Word)
      requires Valid()
      requires firstGuess ==> FirstGuess in game.wordlist.words
      ensures firstGuess ==> guess == WordFromString(FirstGuess)
      ensures !firstGuess ==> IsFoundGuess(mode, vocabulary, game.letterCount, possibleSolutions, guess)
      ensures exists w :: w in game.wordlist.words && guess == WordFromString(w)
    {
      var n := game.letterCount;
      if firstGuess {
        guess := WordFromString(FirstGuess);
      } else {
        ListedPlayable(game.wordlist, n, vocabulary);
        ListedPlayable(game.wordlist, n, possibleSolutions);
        guess := FindGuess(mode, vocabulary, n, possibleSolutions);
        var w :| (w in vocabulary || w in possibleSolutions) && guess == WordFromString(w);
        assert w in game.wordlist.words;
      }
    }

    /** `Solver::guess`: plays the next word (the round must still be open,
        and "roast" a word of the list), then keeps the candidates consistent
        with the feedback. */
    method Guess(mode: SolverMode)
      requires Valid() && game.GameState() == Unsolved
      requires firstGuess ==> FirstGuess in game.wordlist.words
      modifies this`possibleSolutions, this`firstGuess, game`guesses
      ensures Valid() && !firstGuess
      ensures game.solution == old(game.solution)
      ensures |game.guesses| == |old(game.guesses)| + 1
      ensures var played := game.guesses[|old(game.guesses)|].guess;
              && game.guesses == old(game.guesses) + [Checked(played, game.solution, game.letterCount)]
              && (old(firstGuess) ==> played == WordFromString(FirstGuess))
              && (!old(firstGuess) ==> IsFoundGuess(mode, vocabulary, game.letterCount, old(possibleSolutions), played))
      ensures possibleSolutions == Filtered(game.guesses[|old(game.guesses)|], game.letterCount, old(possibleSolutions))
      ensures IsSubsequence(possibleSolutions, old(possibleSolutions))
      ensures game.solution in old(possibleSolutions) ==> game.solution in possibleSolutions
    {
      var guess := NextGuess(mode);
      Play(guess);
    }

    /** The second half of `Solver::guess`: plays `guess`, a word of the
        list, clears `first_guess` and keeps the candidates that reproduce
        the feedback. */
    method Play(guess: Word)
      requires Valid() && game.GameState() == Unsolved
      requires exists w :: w in game.wordlist.words && guess == WordFromString(w)
      modifies this`possibleSolutions, this`firstGuess, game`guesses
      ensures Valid() && !firstGuess
      ensures game.solution == old(game.solution)
      ensures game.guesses == old(game.guesses) + [Checked(guess, game.solution, game.letterCount)]
      ensures possibleSolutions == Filtered(Checked(guess, game.solution, game.letterCount), game.letterCount, old(possibleSolutions))
      ensures IsSubsequence(possibleSolutions, old(possibleSolutions))
      ensures game.solution in old(possibleSolutions) ==> game.solution in possibleSolutions
    {
      var n := game.letterCount;
      firstGuess := false;
      ghost var w :| w in game.wordlist.words && guess == WordFromString(w);
      StringRoundTrip(w);
      var res := game.Guess(WordToString(guess));
      assert res.Ok? && res.value.guess == guess;
      ListedPlayable(game.wordlist, n, possibleSolutions);
      PlayableCheckable(guess, n, possibleSolutions);
      FilterStep(res.value, n, possibleSolutions, game.wordlist.allowedSolutions, game.solution);
      FilterAllSnoc(order, old(game.guesses), res.value, n);
      possibleSolutions := FilterSolutions(res.value, n, possibleSolutions);
    }
  }
}
