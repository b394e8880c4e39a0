/**
 * The game session of src/game.rs: a solution, a word list shared
 * read-only, and the history of guesses of the current round.
 *
 * The random choice of the solution in `Game::new` is a constructor
 * parameter here.  The words of the list are assumed to be lower-case
 * a..z of exactly `letterCount` characters (the source panics on any
 * other character when it converts a guess or the solution to a word).
 */
module Game {
  import opened Wrappers
  import opened Letters
  import opened Feedback
  import opened Words

  /** Number of guesses a round allows. */
  const DefaultTries: nat := 5

  datatype State = Unsolved | Solved | Failed

  datatype GuessError = InvalidGuess(guess: string) | GameFinished(state: State)

  /** What the keyboard shows for a letter. */
  datatype LetterState = Exact | Partial | Eliminated | Unknown

  /** A word the game can play: `n` characters, all in a..z. */
  predicate Playable(w: string, n: nat)
  {
    |w| == n && IsLowercase(w)
  }

  /** The state a history of guesses puts a round in (`Game::state`). */
  function StateOf(guesses: seq<GuessResult>, tries: nat): (s: State)
    ensures s == Solved <==> guesses != [] && IsSolved(guesses[|guesses| - 1])
    ensures s == Failed <==> guesses != [] && !IsSolved(guesses[|guesses| - 1]) && |guesses| == tries
    ensures s == Unsolved && 0 < tries && |guesses| <= tries ==> |guesses| < tries
  {
    var n := |guesses|;
    if n == 0 then Unsolved
    else if IsSolved(guesses[n - 1]) then Solved
    else if n == tries then Failed
    else Unsolved
  }

  // ---------------------------------------------------------------------
  // `letter_states`: the summary of every mark a letter received

  /** The marks of one guess, letter by letter. */
  function Pairs(gr: GuessResult): (ps: seq<(Letter, LetterMatch)>)
    requires |gr.guess.letters| <= |gr.result|
    ensures |ps| == |gr.guess.letters|
    ensures forall i :: 0 <= i < |ps| ==> ps[i] == (gr.guess.letters[i], gr.result[i])
  {
    seq(|gr.guess.letters|, i requires 0 <= i < |gr.guess.letters| => (gr.guess.letters[i], gr.result[i]))
  }

  predicate MarksCoverLetters(guesses: seq<GuessResult>)
  {
    forall k :: 0 <= k < |guesses| ==> |guesses[k].guess.letters| <= |guesses[k].result|
  }

  /** Every (letter, mark) pair of a history, in order. */
  function Flatten(guesses: seq<GuessResult>): seq<(Letter, LetterMatch)>
    requires MarksCoverLetters(guesses)
  {
    if guesses == [] then []
    else Flatten(guesses[..|guesses| - 1]) + Pairs(guesses[|guesses| - 1])
  }

  /** The update of one letter's state by one more mark (the match of `letter_states`). */
  function Merge(pre: LetterState, m: LetterMatch): (r: LetterState)
    ensures r == LetterState.Exact <==> m == LetterMatch.Exact || pre == LetterState.Exact
    ensures r == LetterState.Partial <==>
              m != LetterMatch.Exact && pre != LetterState.Exact && (m == LetterMatch.Partial || pre == LetterState.Partial)
    ensures r != Unknown
  {
    if m == LetterMatch.Exact || pre == LetterState.Exact then LetterState.Exact
    else if m == LetterMatch.Partial || pre == LetterState.Partial then LetterState.Partial
    else Eliminated
  }

  /** Two marks of a letter give the same state in either order, so the
      order in which `letter_states` visits the marks does not matter. */
  lemma MergeOrderFree(pre: LetterState, a: LetterMatch, b: LetterMatch)
    ensures Merge(Merge(pre, a), b) == Merge(Merge(pre, b), a)
  {
  }

  /** The map after folding `Merge` over the pairs, in order. */
  function Accumulate(ps: seq<(Letter, LetterMatch)>): map<Letter, LetterState>
  {
    if ps == [] then map[]
    else
      var m := Accumulate(ps[..|ps| - 1]);
      var (l, mk) := ps[|ps| - 1];
      m[l := Merge(if l in m then m[l] else Unknown, mk)]
  }

  /** What a letter's state means: Exact once it was ever Exact, else Partial
      once it was ever Partial, else Eliminated. */
  function Summary(ps: seq<(Letter, LetterMatch)>, l: Letter): LetterState
  {
    if (l, LetterMatch.Exact) in ps then LetterState.Exact
    else if (l, LetterMatch.Partial) in ps then LetterState.Partial
    else Eliminated
  }

  predicate Marked(ps: seq<(Letter, LetterMatch)>, l: Letter)
  {
    (l, LetterMatch.Exact) in ps || (l, LetterMatch.Partial) in ps || (l, LetterMatch.Wrong) in ps
  }

  /** The fold computes the summary of every letter that was guessed, and
      holds no other letter. */
  lemma {:induction false} AccumulateMeaning(ps: seq<(Letter, LetterMatch)>, l: Letter)
    ensures l in Accumulate(ps) <==> Marked(ps, l)
    ensures l in Accumulate(ps) ==> Accumulate(ps)[l] == Summary(ps, l)
  {
    if ps != [] {
      var p, last := ps[..|ps| - 1], ps[|ps| - 1];
      AccumulateMeaning(p, l);
      assert ps == p + [last];
      assert forall x :: x in ps <==> x in p || x == last;
    }
  }

  /** Every letter of the fold has the state its marks give it. */
  lemma AccumulateSummary(ps: seq<(Letter, LetterMatch)>)
    ensures forall l :: l in Accumulate(ps) <==> Marked(ps, l)
    ensures forall l :: l in Accumulate(ps) ==> Accumulate(ps)[l] == Summary(ps, l)
  {
    forall l ensures (l in Accumulate(ps) <==> Marked(ps, l))
                     && (l in Accumulate(ps) ==> Accumulate(ps)[l] == Summary(ps, l)) {
      AccumulateMeaning(ps, l);
    }
  }

  lemma AccumulateSnoc(ps: seq<(Letter, LetterMatch)>, l: Letter, mk: LetterMatch)
    ensures var m := Accumulate(ps);
      Accumulate(ps + [(l, mk)]) == m[l := Merge(if l in m then m[l] else Unknown, mk)]
  {
    assert (ps + [(l, mk)])[..|ps|] == ps;
  }

  /** One more mark of a guess folded into the map. */
  lemma AccumulateStep(done: seq<(Letter, LetterMatch)>, gr: GuessResult, i: nat)
    requires |gr.guess.letters| <= |gr.result| && i < |gr.guess.letters|
    ensures var m, l := Accumulate(done + Pairs(gr)[..i]), gr.guess.letters[i];
      Accumulate(done + Pairs(gr)[..i + 1]) == m[l := Merge(if l in m then m[l] else Unknown, gr.result[i])]
  {
    var l, mk := gr.guess.letters[i], gr.result[i];
    assert done + Pairs(gr)[..i + 1] == (done + Pairs(gr)[..i]) + [(l, mk)];
    AccumulateSnoc(done + Pairs(gr)[..i], l, mk);
  }

  lemma FlattenSnoc(guesses: seq<GuessResult>, k: nat)
    requires MarksCoverLetters(guesses) && k < |guesses|
    ensures MarksCoverLetters(guesses[..k]) && MarksCoverLetters(guesses[..k + 1])
    ensures Flatten(guesses[..k + 1]) == Flatten(guesses[..k]) + Pairs(guesses[k])
  {
    assert guesses[..k + 1][..k] == guesses[..k];
  }

  class Game {
    const letterCount: nat
    const tries: nat
    const wordlist: WordList
    var solution: string
    var guesses: seq<GuessResult>

    ghost predicate Valid()
      reads this
    {
      && 0 < tries
      && |guesses| <= tries
      && wordlist.Valid()
      && (forall w :: w in wordlist.words ==> Playable(w, letterCount))
      && solution in wordlist.allowedSolutions
      && (forall k :: 0 <= k < |guesses| ==>
            Len(guesses[k].guess) == letterCount && |guesses[k].result| == letterCount)
    }

    /** `Game::new` with the solution given instead of drawn at random. */
    constructor (letterCount: nat, wordlist: WordList, solution: string)
      requires wordlist.Valid()
      requires forall w :: w in wordlist.words ==> Playable(w, letterCount)
      requires wordlist.IsValidSolution(solution)
      ensures Valid()
      ensures this.letterCount == letterCount && this.wordlist == wordlist && this.solution == solution
      ensures tries == DefaultTries && guesses == []
    {
      this.letterCount := letterCount;
      this.wordlist := wordlist;
      this.solution := solution;
      tries := DefaultTries;
      guesses := [];
    }

    /** `Game::from_source`: the source's word list (`WordList::from_source`)
        and letter count. */
    constructor FromSource(source: WordSource, wordleText: string, scrabbleText: string,
                           dictionaryText: string, table: map<string, nat>, solution: string)
      requires source.SolutionCount() <= |SourceWords(source, wordleText, scrabbleText, dictionaryText)|
      requires forall w :: w in SourceWords(source, wordleText, scrabbleText, dictionaryText) ==> IsLowercase(w)
      requires 0 < source.SolutionCount()
      ensures Valid()
      ensures letterCount == source.LetterCount() && tries == DefaultTries && guesses == []
      ensures IsTopList(wordlist, SourceWords(source, wordleText, scrabbleText, dictionaryText), source.SolutionCount(), table)
      ensures solution in wordlist.allowedSolutions ==> this.solution == solution
    {
      var wl, s := SourceRound(source, wordleText, scrabbleText, dictionaryText, table, solution);
      letterCount := source.LetterCount();
      wordlist := wl;
      tries := DefaultTries;
      guesses := [];
      this.solution := s;
    }

    /** `set_solution`: panics unless `s` is an allowed solution; changes nothing else. */
    method SetSolution(s: string)
      requires Valid() && wordlist.IsValidSolution(s)
      modifies this`solution
      ensures Valid() && solution == s
    {
      solution := s;
    }

    /** `restart`: a new round with the same solution. */
    method Restart()
      requires Valid()
      modifies this`guesses
      ensures Valid() && guesses == []
    {
      guesses := [];
    }

    /** `Game::state`. */
    function GameState(): (s: State)
      reads this
      ensures s == Solved <==> guesses != [] && IsSolved(guesses[|guesses| - 1])
      ensures s == Failed <==> guesses != [] && !IsSolved(guesses[|guesses| - 1]) && |guesses| == tries
      ensures s == Unsolved && 0 < tries && |guesses| <= tries ==> |guesses| < tries
    {
      StateOf(guesses, tries)
    }

    /** `Game::guess`: rejects a word outside the list and any guess once the
        round is over, leaving the history as it was; otherwise appends the
        feedback against the solution and returns it. */
    method Guess(guess: string) returns (r: Result<GuessResult, GuessError>)
      requires Valid()
      modifies this`guesses
      ensures Valid()
      ensures !wordlist.IsValidGuess(guess) ==> r == Err(InvalidGuess(guess)) && guesses == old(guesses)
      ensures wordlist.IsValidGuess(guess) && old(GameState()) != Unsolved
              ==> r == Err(GameFinished(old(GameState()))) && guesses == old(guesses)
      ensures wordlist.IsValidGuess(guess) && old(GameState()) == Unsolved
              ==> && r.Ok?
                  && r.value == Checked(WordFromString(guess), solution, letterCount)
                  && guesses == old(guesses) + [r.value]
      ensures r.Ok? && guess == solution ==> GameState() == Solved
    {
      if !wordlist.IsValidGuess(guess) {
        return Err(InvalidGuess(guess));
      }
      match GameState() {
        case Unsolved =>
          var result := Check(WordFromString(guess), solution, letterCount);
          guesses := guesses + [result];
          r := Ok(result);
          if guess == solution {
            assert WordToString(WordFromString(guess)) == solution by { StringRoundTrip(guess); }
            SelfCheckSolved(WordFromString(guess), letterCount);
          }
        case Solved =>
          r := Err(GameFinished(Solved));
        case Failed =>
          r := Err(GameFinished(Failed));
      }
    }

    /** `letter_states`: for every letter guessed this round, Exact if it was
        ever marked Exact, else Partial if it was ever marked Partial, else
        Eliminated. */
    method LetterStates() returns (states: map<Letter, LetterState>)
      requires Valid()
      ensures MarksCoverLetters(guesses)
      ensures forall l :: l in states <==> Marked(Flatten(guesses), l)
      ensures forall l :: l in states ==> states[l] == Summary(Flatten(guesses), l)
    {
      states := map[];
      for k := 0 to |guesses|
        invariant MarksCoverLetters(guesses[..k])
        invariant states == Accumulate(Flatten(guesses[..k]))
      {
        var gr := guesses[k];
        ghost var done := Flatten(guesses[..k]);
        assert done + Pairs(gr)[..0] == done;
        for i := 0 to Len(gr.guess)
          invariant states == Accumulate(done + Pairs(gr)[..i])
        {
          var letter := gr.guess.letters[i];
          var letterMatch := gr.result[i];
          var preRes := if letter in states then states[letter] else Unknown;
          AccumulateStep(done, gr, i);
          states := states[letter := Merge(preRes, letterMatch)];
        }
        assert Pairs(gr)[..Len(gr.guess)] == Pairs(gr);
        FlattenSnoc(guesses, k);
      }
      assert guesses[..|guesses|] == guesses;
      AccumulateSummary(Flatten(guesses));
    }
  }

  /** The word list of `Game::from_source` and the solution it plays: the
      given one when it is allowed, otherwise one drawn from the solutions. */
  method SourceRound(source: WordSource, wordleText: string, scrabbleText: string,
                     dictionaryText: string, table: map<string, nat>, solution: string)
    returns (wl: WordList, s: string)
    requires source.SolutionCount() <= |SourceWords(source, wordleText, scrabbleText, dictionaryText)|
    requires forall w :: w in SourceWords(source, wordleText, scrabbleText, dictionaryText) ==> IsLowercase(w)
    requires 0 < source.SolutionCount()
    ensures IsTopList(wl, SourceWords(source, wordleText, scrabbleText, dictionaryText), source.SolutionCount(), table)
    ensures forall w :: w in wl.words ==> Playable(w, source.LetterCount())
    ensures s in wl.allowedSolutions
    ensures solution in wl.allowedSolutions ==> s == solution
  {
    wl := Words.FromSource(source, wordleText, scrabbleText, dictionaryText, table);
    forall w | w in wl.words ensures Playable(w, source.LetterCount()) {
      Utf8LenLowercase(w);
    }
    s := solution;
    if s !in wl.allowedSolutions {
      // The source draws the solution at random among the allowed ones.
      s := ChooseSolution(wl);
    }
  }

  /** Some allowed solution, standing in for the random draw; drawing from
      an empty set panics on the `unwrap`. */
  method ChooseSolution(wl: WordList) returns (s: string)
    requires wl.allowedSolutions != {}
    ensures s in wl.allowedSolutions
  {
    s :| s in wl.allowedSolutions;
  }
}
