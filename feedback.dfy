/**
 * The feedback evaluator of src/game.rs: `GuessResult::check` and
 * `GuessResult::is_solved`.
 *
 * `Marks` is the reference definition of the feedback, position by
 * position: a position is Exact when guess and solution agree there;
 * otherwise its guess letter is Partial when fewer earlier non-exact
 * positions of the guess hold that letter than there are non-exact
 * positions of the solution holding it, and Wrong otherwise.  `Check` is
 * the two-pass counting algorithm, proved equal to `Marks`.
 */
module Feedback {
  import opened Letters

  datatype LetterMatch = Exact | Partial | Wrong

  /** A guess with its per-position marks; equality is structural. */
  datatype GuessResult = GuessResult(guess: Word, result: seq<LetterMatch>)

  function Min(a: nat, b: nat): nat { if a <= b then a else b }

  /** Non-exact positions before `upto` whose SOLUTION letter is `l`. */
  function UnmatchedInSolution(g: seq<Letter>, s: seq<Letter>, l: Letter, upto: nat): nat
    requires upto <= |g| && upto <= |s|
  {
    if upto == 0 then 0
    else UnmatchedInSolution(g, s, l, upto - 1)
         + (if g[upto - 1] != s[upto - 1] && s[upto - 1] == l then 1 else 0)
  }

  /** Non-exact positions before `upto` whose GUESS letter is `l`. */
  function UnmatchedInGuess(g: seq<Letter>, s: seq<Letter>, l: Letter, upto: nat): nat
    requires upto <= |g| && upto <= |s|
  {
    if upto == 0 then 0
    else UnmatchedInGuess(g, s, l, upto - 1)
         + (if g[upto - 1] != s[upto - 1] && g[upto - 1] == l then 1 else 0)
  }

  /** A letter absent from the solution is unmatched nowhere in it. */
  lemma {:induction false} UnmatchedInSolutionAbsent(g: seq<Letter>, s: seq<Letter>, l: Letter, upto: nat)
    requires upto <= |g| && upto <= |s| && l !in s[..upto]
    ensures UnmatchedInSolution(g, s, l, upto) == 0
  {
    if upto > 0 {
      assert s[..upto - 1] == s[..upto][..upto - 1];
      UnmatchedInSolutionAbsent(g, s, l, upto - 1);
    }
  }

  /** The mark of position `i` when the first `n` positions are compared. */
  function MatchAt(g: seq<Letter>, s: seq<Letter>, n: nat, i: nat): LetterMatch
    requires n <= |g| && n <= |s| && i < n
  {
    if g[i] == s[i] then Exact
    else if UnmatchedInGuess(g, s, g[i], i) < UnmatchedInSolution(g, s, g[i], n) then Partial
    else Wrong
  }

  function Marks(g: seq<Letter>, s: seq<Letter>, n: nat): (ms: seq<LetterMatch>)
    requires n <= |g| && n <= |s|
    ensures |ms| == n
  {
    seq(n, i requires 0 <= i < n => MatchAt(g, s, n, i))
  }

  /** What `check` needs not to panic: `n` letters on both sides, and a solution made of a..z. */
  predicate Checkable(guess: Word, solution: string, n: nat)
  {
    n <= Len(guess) && n <= |solution| && IsLowercase(solution)
  }

  /** The value `check(guess, solution, n)` returns. */
  function Checked(guess: Word, solution: string, n: nat): (r: GuessResult)
    requires Checkable(guess, solution, n)
    ensures r.guess == guess && |r.result| == n
    ensures forall i :: 0 <= i < n ==>
              (r.result[i] == Exact <==> guess.letters[i] == WordFromString(solution).letters[i])
  {
    GuessResult(guess, Marks(guess.letters, WordFromString(solution).letters, n))
  }

  /** The first pass of `check`: per letter, the non-exact positions of the
      solution holding it. */
  method CountNonexactSolution(g: seq<Letter>, s: seq<Letter>, n: nat) returns (counts: array<nat>)
    requires n <= |g| && n <= |s|
    ensures fresh(counts) && counts.Length == 26
    ensures forall l: Letter :: counts[AsIndex(l)] == UnmatchedInSolution(g, s, l, n)
  {
    counts := new nat[26](_ => 0);
    for i := 0 to n
      invariant forall l: Letter :: counts[AsIndex(l)] == UnmatchedInSolution(g, s, l, i)
    {
      if g[i] != s[i] {
        var k := AsIndex(s[i]);
        counts[k] := counts[k] + 1;
      }
    }
  }

  /** The Partial marks handed out per letter after the first `i` positions:
      the non-exact guess occurrences so far, capped by the solution's. */
  ghost predicate GuessCountsAt(cs: seq<nat>, g: seq<Letter>, s: seq<Letter>, n: nat, i: nat)
    requires i <= n <= |g| && n <= |s|
  {
    |cs| == 26 && forall l: Letter :: cs[AsIndex(l)] == Min(UnmatchedInGuess(g, s, l, i), UnmatchedInSolution(g, s, l, n))
  }

  /** One position of the second pass: the mark it gets, and the counter of
      its letter grows exactly when the mark is Partial. */
  lemma GuessCountsStep(cs: seq<nat>, g: seq<Letter>, s: seq<Letter>, n: nat, i: nat, unmatched: nat)
    requires i < n <= |g| && n <= |s| && GuessCountsAt(cs, g, s, n, i)
    requires unmatched == UnmatchedInSolution(g, s, g[i], n)
    ensures var k := AsIndex(g[i]);
            && (MatchAt(g, s, n, i) == Exact <==> g[i] == s[i])
            && (MatchAt(g, s, n, i) == Partial <==> g[i] != s[i] && cs[k] < unmatched)
            && (g[i] != s[i] && cs[k] < unmatched ==> GuessCountsAt(cs[k := cs[k] + 1], g, s, n, i + 1))
            && (!(g[i] != s[i] && cs[k] < unmatched) ==> GuessCountsAt(cs, g, s, n, i + 1))
  {
    var k := AsIndex(g[i]);
    forall l: Letter ensures (if l == g[i] then AsIndex(l) == k else AsIndex(l) != k) {
      LetterEquality(l, g[i]);
    }
  }

  /** The marks of the first `i + 1` positions extend those of the first `i`. */
  lemma MarksPrefix(g: seq<Letter>, s: seq<Letter>, n: nat, i: nat)
    requires n <= |g| && n <= |s| && i < n
    ensures Marks(g, s, n)[..i + 1] == Marks(g, s, n)[..i] + [MatchAt(g, s, n, i)]
  {
  }

  /** `GuessResult::check`: a first pass counts the solution's non-exact
      letters, a second pass marks each position and counts the Partial
      marks given to each letter so that no letter is credited twice. */
  method Check(guessWord: Word, solution: string, letterCount: nat) returns (r: GuessResult)
    requires Checkable(guessWord, solution, letterCount)
    ensures r == Checked(guessWord, solution, letterCount)
  {
    var solutionWord := WordFromString(solution);
    var g, s := guessWord.letters, solutionWord.letters;
    var countNonexactGuess := new nat[26](_ => 0);
    var countNonexactSolution := CountNonexactSolution(g, s, letterCount);

    var res: seq<LetterMatch> := [];
    for i := 0 to letterCount
      modifies countNonexactGuess
      invariant GuessCountsAt(countNonexactGuess[..], g, s, letterCount, i)
      invariant res == Marks(g, s, letterCount)[..i]
    {
      var guessLetter, solutionLetter := g[i], s[i];
      var k := AsIndex(guessLetter);
      ghost var cs := countNonexactGuess[..];
      GuessCountsStep(cs, g, s, letterCount, i, countNonexactSolution[k]);
      var mark: LetterMatch;
      if guessLetter == solutionLetter {
        mark := Exact;
      } else if countNonexactGuess[k] < countNonexactSolution[k] {
        mark := Partial;
        countNonexactGuess[k] := countNonexactGuess[k] + 1;
        assert countNonexactGuess[..] == cs[k := cs[k] + 1];
      } else {
        mark := Wrong;
      }
      MarksPrefix(g, s, letterCount, i);
      res := res + [mark];
    }
    assert Marks(g, s, letterCount)[..letterCount] == Marks(g, s, letterCount);
    r := GuessResult(guessWord, res);
  }

  /** Every mark is Exact (the loop of `is_solved`). */
  function AllExact(ms: seq<LetterMatch>): (b: bool)
    ensures b <==> forall i :: 0 <= i < |ms| ==> ms[i] == Exact
  {
    |ms| == 0 || (ms[0] == Exact && AllExact(ms[1..]))
  }

  /** `GuessResult::is_solved`. */
  function IsSolved(r: GuessResult): (b: bool)
    ensures b <==> forall i :: 0 <= i < |r.result| ==> r.result[i] == Exact
  {
    AllExact(r.result)
  }

  /** Number of positions before `upto` holding guess letter `l` and marked Partial. */
  function PartialsOn(g: seq<Letter>, ms: seq<LetterMatch>, l: Letter, upto: nat): nat
    requires upto <= |g| && upto <= |ms|
  {
    if upto == 0 then 0
    else PartialsOn(g, ms, l, upto - 1) + (if g[upto - 1] == l && ms[upto - 1] == Partial then 1 else 0)
  }

  /** Duplicate letters are never over-credited: among the first `i`
      positions, the Partial marks on `l` are as many as the non-exact
      guess occurrences of `l`, capped by the non-exact solution
      occurrences of `l`. */
  lemma {:induction false} PartialsCapped(g: seq<Letter>, s: seq<Letter>, n: nat, l: Letter, i: nat)
    requires n <= |g| && n <= |s| && i <= n
    ensures PartialsOn(g, Marks(g, s, n), l, i)
            == Min(UnmatchedInGuess(g, s, l, i), UnmatchedInSolution(g, s, l, n))
  {
    if i > 0 {
      PartialsCapped(g, s, n, l, i - 1);
    }
  }

  /** Over the whole word, the Partial marks on `l` never exceed the
      solution's non-exact occurrences of `l`. */
  lemma PartialsAtMostUnmatched(g: seq<Letter>, s: seq<Letter>, n: nat, l: Letter)
    requires n <= |g| && n <= |s|
    ensures PartialsOn(g, Marks(g, s, n), l, n) <= UnmatchedInSolution(g, s, l, n)
  {
    PartialsCapped(g, s, n, l, n);
  }

  lemma {:induction false} UnmatchedInGuessMonotone(g: seq<Letter>, s: seq<Letter>, l: Letter, i: nat, j: nat)
    requires i <= j <= |g| && j <= |s|
    ensures UnmatchedInGuess(g, s, l, i) <= UnmatchedInGuess(g, s, l, j)
    decreases j - i
  {
    if i < j {
      UnmatchedInGuessMonotone(g, s, l, i, j - 1);
    }
  }

  /** Partial marks go to the leftmost non-exact occurrences of a letter:
      a non-exact occurrence left of a Partial one is Partial too, and
      one right of a Wrong one is Wrong too. */
  lemma PartialsLeftmost(g: seq<Letter>, s: seq<Letter>, n: nat, j: nat, i: nat)
    requires n <= |g| && n <= |s| && j < i < n
    requires g[j] == g[i] && g[j] != s[j] && g[i] != s[i]
    ensures Marks(g, s, n)[i] == Partial ==> Marks(g, s, n)[j] == Partial
    ensures Marks(g, s, n)[j] == Wrong ==> Marks(g, s, n)[i] == Wrong
  {
    UnmatchedInGuessMonotone(g, s, g[i], j + 1, i);
  }

  /** A word checked against its own text is all Exact, hence solved. */
  lemma SelfCheckSolved(w: Word, n: nat)
    requires n <= Len(w)
    ensures Checkable(w, WordToString(w), n)
    ensures IsSolved(Checked(w, WordToString(w), n))
  {
    WordRoundTrip(w);
  }

  /** On whole words, a guess is solved exactly when it is the solution. */
  lemma SolvedIffEqual(guess: Word, solution: string)
    requires Len(guess) == |solution| && IsLowercase(solution)
    ensures IsSolved(Checked(guess, solution, |solution|)) <==> guess == WordFromString(solution)
  {
    var r := Checked(guess, solution, |solution|);
    var sw := WordFromString(solution);
    if IsSolved(r) {
      assert forall i :: 0 <= i < |solution| ==> guess.letters[i] == sw.letters[i];
      assert guess.letters == sw.letters;
    }
  }

  // The unit tests of src/game.rs, with letters a = 0, b = 1, c = 2, ...

  lemma UnitTestSolved()
    ensures Checked(WordFromString("relax"), "relax", 5).result == [Exact, Exact, Exact, Exact, Exact]
  {
    assert WordFromString("relax").letters == [Letter(17), Letter(4), Letter(11), Letter(0), Letter(23)];
  }

  lemma UnitTestWrong()
    ensures Checked(WordFromString("relax"), "bbbbb", 5).result == [Wrong, Wrong, Wrong, Wrong, Wrong]
  {
    var b := Letter(1);
    var g, s := [Letter(17), Letter(4), Letter(11), Letter(0), Letter(23)], [b, b, b, b, b];
    assert WordFromString("relax").letters == g;
    assert WordFromString("bbbbb").letters == s;
    RelaxBbbbbMarks();
  }

  lemma RelaxBbbbbMarks()
    ensures Marks([Letter(17), Letter(4), Letter(11), Letter(0), Letter(23)],
                  [Letter(1), Letter(1), Letter(1), Letter(1), Letter(1)], 5)
            == [Wrong, Wrong, Wrong, Wrong, Wrong]
  {
    var b := Letter(1);
    var g, s := [Letter(17), Letter(4), Letter(11), Letter(0), Letter(23)], [b, b, b, b, b];
    forall i | 0 <= i < 5 ensures MatchAt(g, s, 5, i) == Wrong {
      UnmatchedInSolutionAbsent(g, s, g[i], 5);
    }
  }

  lemma UnitTestPartial1()
    ensures Checked(WordFromString("accca"), "aaabb", 5).result == [Exact, Wrong, Wrong, Wrong, Partial]
  {
    var a, b, c := Letter(0), Letter(1), Letter(2);
    assert WordFromString("accca").letters == [a, c, c, c, a];
    assert WordFromString("aaabb").letters == [a, a, a, b, b];
    AcccaAaabbMarks();
  }

  lemma AcccaAaabbMarks()
    ensures Marks([Letter(0), Letter(2), Letter(2), Letter(2), Letter(0)],
                  [Letter(0), Letter(0), Letter(0), Letter(1), Letter(1)], 5)
            == [Exact, Wrong, Wrong, Wrong, Partial]
  {
    var g, s := [Letter(0), Letter(2), Letter(2), Letter(2), Letter(0)], [Letter(0), Letter(0), Letter(0), Letter(1), Letter(1)];
    var a, c := Letter(0), Letter(2);
    assert UnmatchedInSolution(g, s, a, 5) == 2;
    assert UnmatchedInSolution(g, s, c, 5) == 0;
    assert UnmatchedInGuess(g, s, a, 4) == 0;
  }

  lemma UnitTestPartial2()
    ensures Checked(WordFromString("acaaa"), "aabbb", 5).result == [Exact, Wrong, Partial, Wrong, Wrong]
  {
    var a, b, c := Letter(0), Letter(1), Letter(2);
    assert WordFromString("acaaa").letters == [a, c, a, a, a];
    assert WordFromString("aabbb").letters == [a, a, b, b, b];
    AcaaaAabbbMarks();
  }

  lemma AcaaaAabbbMarks()
    ensures Marks([Letter(0), Letter(2), Letter(0), Letter(0), Letter(0)],
                  [Letter(0), Letter(0), Letter(1), Letter(1), Letter(1)], 5)
            == [Exact, Wrong, Partial, Wrong, Wrong]
  {
    var g, s := [Letter(0), Letter(2), Letter(0), Letter(0), Letter(0)], [Letter(0), Letter(0), Letter(1), Letter(1), Letter(1)];
    var a, c := Letter(0), Letter(2);
    assert UnmatchedInSolution(g, s, a, 5) == 1;
    assert UnmatchedInSolution(g, s, c, 5) == 0;
    assert UnmatchedInGuess(g, s, a, 2) == 0;
    assert UnmatchedInGuess(g, s, a, 3) == 1;
    assert UnmatchedInGuess(g, s, a, 4) == 2;
  }

  /** "speed" against "erase": the solution holds two non-exact 'e's, so
      both 'e's of the guess are Partial, and 's' is Partial as well. */
  lemma SpeedAgainstErase()
    ensures Checked(WordFromString("speed"), "erase", 5).result == [Partial, Wrong, Partial, Partial, Wrong]
  {
    var a, d, e, p, r, s' := Letter(0), Letter(3), Letter(4), Letter(15), Letter(17), Letter(18);
    assert WordFromString("speed").letters == [s', p, e, e, d];
    assert WordFromString("erase").letters == [e, r, a, s', e];
    SpeedEraseMarks();
  }

  lemma SpeedEraseMarks()
    ensures Marks([Letter(18), Letter(15), Letter(4), Letter(4), Letter(3)],
                  [Letter(4), Letter(17), Letter(0), Letter(18), Letter(4)], 5)
            == [Partial, Wrong, Partial, Partial, Wrong]
  {
    var g, s := [Letter(18), Letter(15), Letter(4), Letter(4), Letter(3)], [Letter(4), Letter(17), Letter(0), Letter(18), Letter(4)];
    var d, e, p, s' := Letter(3), Letter(4), Letter(15), Letter(18);
    assert UnmatchedInSolution(g, s, e, 5) == 2;
    assert UnmatchedInSolution(g, s, s', 5) == 1;
    assert UnmatchedInSolution(g, s, p, 5) == 0;
    assert UnmatchedInSolution(g, s, d, 5) == 0;
    assert UnmatchedInGuess(g, s, e, 3) == 1;
  }
}
