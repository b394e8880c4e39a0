/**
 * Word sources and word lists (src/words.rs).
 *
 * The embedded word files are parameters (`wordleText`, ...), and the
 * word/frequency table is a `map` from word to frequency; its parsing is
 * not part of this model.  A word list is a pair of sets, as in the
 * source.
 */
module Words {
  import opened Letters
  import opened Sequences

  /** Number of solutions the Wordle source allows. */
  const WordleSolutionCount: nat := 2315

  /** Letter count of the Wordle source. */
  const WordleLetterCount: nat := 5

  datatype WordSource =
    | Wordle
    | Scrabble(letterCount: nat, topN: nat)
    | Dictionary(letterCount: nat, topN: nat)
  {
    /** `WordSource::letter_count`. */
    function LetterCount(): (n: nat)
      ensures Wordle? ==> n == WordleLetterCount
      ensures !Wordle? ==> n == letterCount
    {
      match this
      case Wordle => WordleLetterCount
      case Scrabble(n, _) => n
      case Dictionary(n, _) => n
    }

    /** How many of the most frequent words become solutions. */
    function SolutionCount(): (n: nat)
      ensures Wordle? ==> n == WordleSolutionCount
      ensures !Wordle? ==> n == topN
    {
      match this
      case Wordle => WordleSolutionCount
      case Scrabble(_, top) => top
      case Dictionary(_, top) => top
    }
  }

  datatype WordList = WordList(allowedSolutions: set<string>, words: set<string>)
  {
    /** Every allowed solution is an acceptable guess. */
    predicate Valid()
    {
      allowedSolutions <= words
    }

    /** `is_valid_guess`. */
    function IsValidGuess(w: string): (b: bool)
      ensures b <==> w in words
    {
      w in words
    }

    /** `is_valid_solution`; in a valid list a valid solution is also a valid guess. */
    function IsValidSolution(w: string): (b: bool)
      ensures b <==> w in allowedSolutions
      ensures b && Valid() ==> IsValidGuess(w)
    {
      w in allowedSolutions
    }
  }

  // ---------------------------------------------------------------------
  // Text handling used by `get_words`

  /** Length of `s` in UTF-8 bytes (what `str::len` returns). */
  function Utf8Len(s: string): (n: nat)
    ensures |s| <= n <= 4 * |s|
  {
    if s == [] then 0
    else
      var c := s[0] as int;
      (if c < 0x80 then 1 else if c < 0x800 then 2 else if c < 0x1_0000 then 3 else 4) + Utf8Len(s[1..])
  }

  /** Lower-case ASCII text has one byte per character. */
  lemma {:induction false} Utf8LenLowercase(s: string)
    requires IsLowercase(s)
    ensures Utf8Len(s) == |s|
  {
    if s != [] {
      Utf8LenLowercase(s[1..]);
    }
  }

  /** The characters with the Unicode White_Space property (`char::is_whitespace`). */
  predicate IsWhitespace(c: char)
  {
    var n := c as int;
    (0x09 <= n <= 0x0D) || n == 0x20 || n == 0x85 || n == 0xA0 || n == 0x1680
    || (0x2000 <= n <= 0x200A) || n == 0x2028 || n == 0x2029 || n == 0x202F
    || n == 0x205F || n == 0x3000
  }

  /** Drops leading white space. */
  function TrimStart(s: string): (r: string)
    ensures |r| <= |s| && r == s[|s| - |r|..]
    ensures forall k :: 0 <= k < |s| - |r| ==> IsWhitespace(s[k])
    ensures r == [] || !IsWhitespace(r[0])
  {
    if s != [] && IsWhitespace(s[0]) then TrimStart(s[1..]) else s
  }

  /** Drops trailing white space. */
  function TrimEnd(s: string): (r: string)
    ensures |r| <= |s| && r == s[..|r|]
    ensures forall k :: |r| <= k < |s| ==> IsWhitespace(s[k])
    ensures r == [] || !IsWhitespace(r[|r| - 1])
  {
    if s != [] && IsWhitespace(s[|s| - 1]) then TrimEnd(s[..|s| - 1]) else s
  }

  /** `str::trim`: the slice of `s` left after dropping white space at both ends. */
  function Trim(s: string): (r: string)
    ensures var i := |s| - |TrimStart(s)|;
            && i + |r| <= |s| && r <= s[i..]
            && (forall k :: 0 <= k < i ==> IsWhitespace(s[k]))
            && (forall k :: i + |r| <= k < |s| ==> IsWhitespace(s[k]))
    ensures r == [] || (!IsWhitespace(r[0]) && !IsWhitespace(r[|r| - 1]))
  {
    var t := TrimStart(s);
    var r := TrimEnd(t);
    TrimShape(s, t, r, IsWhitespace);
    r
  }

  /** Dropping the leading run of `p` and then the trailing one leaves the
      inner slice of `s` with a run of `p` on each side and no `p` at
      either end. */
  lemma TrimShape<T>(s: seq<T>, t: seq<T>, r: seq<T>, p: T -> bool)
    requires |t| <= |s| && t == s[|s| - |t|..]
    requires forall k :: 0 <= k < |s| - |t| ==> p(s[k])
    requires t == [] || !p(t[0])
    requires |r| <= |t| && r == t[..|r|]
    requires forall k :: |r| <= k < |t| ==> p(t[k])
    requires r == [] || !p(r[|r| - 1])
    ensures var i := |s| - |t|;
            && i + |r| <= |s| && r <= s[i..]
            && (forall k :: 0 <= k < i ==> p(s[k]))
            && (forall k :: i + |r| <= k < |s| ==> p(s[k]))
    ensures r == [] || (!p(r[0]) && !p(r[|r| - 1]))
  {
    var i := |s| - |t|;
    forall k | i + |r| <= k < |s| ensures p(s[k]) {
      assert s[k] == t[k - i];
    }
    if r != [] {
      assert r[0] == t[0];
    }
  }

  /** `str::split(sep)`: the pieces between separators; at least one piece. */
  function Split(s: string, sep: char): (parts: seq<string>)
    ensures |parts| >= 1
    decreases |s|
  {
    if s == [] then [[]]
    else if s[0] == sep then [[]] + Split(s[1..], sep)
    else
      var rest := Split(s[1..], sep);
      [[s[0]] + rest[0]] + rest[1..]
  }

  /** Pieces put back together with the separator between them. */
  function Join(parts: seq<string>, sep: char): string
    requires |parts| >= 1
  {
    if |parts| == 1 then parts[0] else parts[0] + [sep] + Join(parts[1..], sep)
  }

  /** Splitting loses nothing: joining the pieces gives the text back, and
      no piece holds a separator. */
  lemma SplitJoin(s: string, sep: char)
    ensures Join(Split(s, sep), sep) == s
    ensures forall p :: p in Split(s, sep) ==> sep !in p
  {
    JoinSplit(s, sep);
    SplitPiecesFree(s, sep);
  }

  lemma {:induction false} JoinSplit(s: string, sep: char)
    ensures Join(Split(s, sep), sep) == s
    decreases |s|
  {
    if s != [] {
      JoinSplit(s[1..], sep);
      JoinSplitStep(s, sep);
    }
  }

  /** The inductive step of `JoinSplit`: from the text after the first
      character to the whole text. */
  lemma JoinSplitStep(s: string, sep: char)
    requires s != [] && Join(Split(s[1..], sep), sep) == s[1..]
    ensures Join(Split(s, sep), sep) == s
  {
    var rest := Split(s[1..], sep);
    var parts := Split(s, sep);
    assert s == [s[0]] + s[1..];
    if s[0] == sep {
      assert parts[1..] == rest;
    } else if |rest| == 1 {
      assert Join(parts, sep) == [s[0]] + rest[0];
    } else {
      var tail := Join(rest[1..], sep);
      assert parts[0] == [s[0]] + rest[0] && parts[1..] == rest[1..];
      assert Join(parts, sep) == [s[0]] + rest[0] + [sep] + tail;
      assert Join(rest, sep) == rest[0] + [sep] + tail;
      ConcatAssoc([s[0]], rest[0], [sep]);
      ConcatAssoc([s[0]], rest[0] + [sep], tail);
    }
  }

  lemma {:induction false} SplitPiecesFree(s: string, sep: char)
    ensures forall p :: p in Split(s, sep) ==> sep !in p
    decreases |s|
  {
    if s != [] {
      SplitPiecesFree(s[1..], sep);
      var rest := Split(s[1..], sep);
      var parts := Split(s, sep);
      if s[0] != sep {
        assert parts[1..] == rest[1..];
        forall p | p in parts ensures sep !in p {
          if p != parts[0] {
            assert p in rest[1..];
          }
        }
      }
    }
  }

  /** The trimmed lines of the given length, in order: what `get_words` keeps. */
  function Selected(lines: seq<string>, letterCount: nat): seq<string>
  {
    if lines == [] then [] else Kept(lines[0], letterCount) + Selected(lines[1..], letterCount)
  }

  /** What one line contributes: its trimmed text when that has the requested length. */
  function Kept(line: string, letterCount: nat): seq<string>
  {
    var word := Trim(line);
    if Utf8Len(word) == letterCount then [word] else []
  }

  function Trimmed(lines: seq<string>): (r: seq<string>)
    ensures |r| == |lines| && forall i :: 0 <= i < |lines| ==> r[i] == Trim(lines[i])
  {
    if lines == [] then [] else [Trim(lines[0])] + Trimmed(lines[1..])
  }

  /** `Selected` keeps the trimmed lines in their original order. */
  lemma {:induction false} SelectedInOrder(lines: seq<string>, letterCount: nat)
    ensures IsSubsequence(Selected(lines, letterCount), Trimmed(lines))
  {
    if lines != [] {
      SelectedInOrder(lines[1..], letterCount);
      var rest := Selected(lines[1..], letterCount);
      var sel := Selected(lines, letterCount);
      var trimmed := Trimmed(lines);
      assert trimmed[1..] == Trimmed(lines[1..]);
      if Utf8Len(Trim(lines[0])) == letterCount {
        assert sel[0] == trimmed[0] && sel[1..] == rest;
      } else {
        assert sel == rest;
        SubsequenceSkip(sel, trimmed);
      }
    }
  }

  /** Every word `Selected` keeps has the requested length. */
  lemma {:induction false} SelectedLength(lines: seq<string>, letterCount: nat)
    ensures forall w :: w in Selected(lines, letterCount) ==> Utf8Len(w) == letterCount
  {
    if lines != [] {
      SelectedLength(lines[1..], letterCount);
    }
  }

  /** Every trimmed line of the requested length is kept. */
  lemma {:induction false} SelectedComplete(lines: seq<string>, letterCount: nat, i: nat)
    requires i < |lines| && Utf8Len(Trim(lines[i])) == letterCount
    ensures Trim(lines[i]) in Selected(lines, letterCount)
  {
    var head, rest := Kept(lines[0], letterCount), Selected(lines[1..], letterCount);
    assert Selected(lines, letterCount) == head + rest;
    if i == 0 {
      assert head == [Trim(lines[i])];
    } else {
      assert lines[1..][i - 1] == lines[i];
      SelectedComplete(lines[1..], letterCount, i - 1);
      assert Trim(lines[i]) in rest;
    }
  }

  /** `Selected` on a prefix one line longer: that line's contribution comes last. */
  lemma SelectedSnoc(lines: seq<string>, letterCount: nat, i: nat)
    requires i < |lines|
    ensures Selected(lines[..i + 1], letterCount) == Selected(lines[..i], letterCount) + Kept(lines[i], letterCount)
  {
    assert lines[..i + 1] == lines[..i] + [lines[i]];
    SelectedAppend(lines[..i], [lines[i]], letterCount);
  }

  /** `Selected` distributes over concatenation. */
  lemma {:induction false} SelectedAppend(xs: seq<string>, ys: seq<string>, letterCount: nat)
    ensures Selected(xs + ys, letterCount) == Selected(xs, letterCount) + Selected(ys, letterCount)
  {
    if xs != [] {
      var head := Kept(xs[0], letterCount);
      assert (xs + ys)[0] == xs[0] && (xs + ys)[1..] == xs[1..] + ys;
      assert Selected(xs + ys, letterCount) == head + Selected(xs[1..] + ys, letterCount);
      assert Selected(xs, letterCount) == head + Selected(xs[1..], letterCount);
      SelectedAppend(xs[1..], ys, letterCount);
      ConcatAssoc(head, Selected(xs[1..], letterCount), Selected(ys, letterCount));
    } else {
      assert xs + ys == ys;
    }
  }

  /** What `get_words(text, letterCount)` returns. */
  function WordsOf(text: string, letterCount: nat): seq<string>
  {
    Selected(Split(text, '\n'), letterCount)
  }

  /** `get_words`: the trimmed lines of `text` whose byte length is `letterCount`. */
  method GetWords(text: string, letterCount: nat) returns (words: seq<string>)
    ensures words == WordsOf(text, letterCount)
    ensures forall w :: w in words ==> Utf8Len(w) == letterCount
  {
    var lines := Split(text, '\n');
    words := [];
    for i := 0 to |lines|
      invariant words == Selected(lines[..i], letterCount)
    {
      var word := Trim(lines[i]);
      SelectedSnoc(lines, letterCount, i);
      if Utf8Len(word) == letterCount {
        words := words + [word];
      }
    }
    assert lines[..|lines|] == lines;
    SelectedLength(lines, letterCount);
  }

  // ---------------------------------------------------------------------
  // Frequency ordering

  /** `word_frequency`: a word missing from the table counts as 0. */
  function WordFrequency(table: map<string, nat>, w: string): (f: nat)
    ensures w !in table ==> f == 0
  {
    if w in table then table[w] else 0
  }

  predicate NonIncreasing(s: seq<string>, table: map<string, nat>)
  {
    forall i, j :: 0 <= i < j < |s| ==> WordFrequency(table, s[i]) >= WordFrequency(table, s[j])
  }

  /** In a frequency-sorted list, a word with a positive frequency comes
      before every word missing from the table. */
  lemma UnknownWordsLast(s: seq<string>, table: map<string, nat>, i: nat, j: nat)
    requires NonIncreasing(s, table) && i < |s| && j < |s|
    requires s[i] in table && table[s[i]] > 0 && s[j] !in table
    ensures i < j
  {
  }

  method SwapAdjacent(a: array<string>, i: nat)
    requires i + 1 < a.Length
    modifies a
    ensures a[..] == old(a[..])[i := old(a[i + 1])][i + 1 := old(a[i])]
    ensures multiset(a[..]) == multiset(old(a[..]))
  {
    a[i], a[i + 1] := a[i + 1], a[i];
  }

  /** The first `i` entries are in ascending frequency order. */
  ghost predicate AscendingUpTo(s: seq<string>, table: map<string, nat>, i: nat)
    requires i <= |s|
  {
    forall p, q :: 0 <= p < q < i ==> WordFrequency(table, s[p]) <= WordFrequency(table, s[q])
  }

  /** Midway through inserting entry `i`: it now sits at `j`, below every
      entry after it, and the other entries up to `i` are in order. */
  ghost predicate Sinking(s: seq<string>, table: map<string, nat>, i: nat, j: nat)
    requires j <= i < |s|
  {
    && (forall p, q :: 0 <= p < q <= i && p != j && q != j
          ==> WordFrequency(table, s[p]) <= WordFrequency(table, s[q]))
    && (forall q :: j < q <= i ==> WordFrequency(table, s[j]) < WordFrequency(table, s[q]))
  }

  lemma SinkStart(s: seq<string>, table: map<string, nat>, i: nat)
    requires i < |s| && AscendingUpTo(s, table, i)
    ensures Sinking(s, table, i, i)
  {
  }

  /** Swapping the entry being inserted with a more frequent left neighbour. */
  lemma SinkStep(s: seq<string>, table: map<string, nat>, i: nat, j: nat)
    requires 0 < j <= i < |s| && Sinking(s, table, i, j)
    requires WordFrequency(table, s[j - 1]) > WordFrequency(table, s[j])
    ensures Sinking(s[j - 1 := s[j]][j := s[j - 1]], table, i, j - 1)
  {
  }

  /** The entry being inserted has reached its place. */
  lemma SinkDone(s: seq<string>, table: map<string, nat>, i: nat, j: nat)
    requires j <= i < |s| && Sinking(s, table, i, j)
    requires j == 0 || WordFrequency(table, s[j - 1]) <= WordFrequency(table, s[j])
    ensures AscendingUpTo(s, table, i + 1)
  {
  }

  /** The entries of frequency `f`, in their order. */
  function OfFrequency(s: seq<string>, table: map<string, nat>, f: nat): seq<string>
  {
    if s == [] then []
    else (if WordFrequency(table, s[0]) == f then [s[0]] else []) + OfFrequency(s[1..], table, f)
  }

  /** `t` lists the words of every frequency in the same order as `s`: what a
      stable sort by frequency keeps. */
  ghost predicate SameGroups(s: seq<string>, t: seq<string>, table: map<string, nat>)
  {
    forall f :: OfFrequency(s, table, f) == OfFrequency(t, table, f)
  }

  /** An entry is in its frequency's group exactly when it has that frequency. */
  lemma {:induction false} OfFrequencyMembers(s: seq<string>, table: map<string, nat>, f: nat, w: string)
    ensures w in OfFrequency(s, table, f) <==> w in s && WordFrequency(table, w) == f
  {
    if s != [] {
      OfFrequencyMembers(s[1..], table, f, w);
      assert s == [s[0]] + s[1..];
    }
  }

  lemma {:induction false} OfFrequencyAppend(s: seq<string>, t: seq<string>, table: map<string, nat>, f: nat)
    ensures OfFrequency(s + t, table, f) == OfFrequency(s, table, f) + OfFrequency(t, table, f)
  {
    if s == [] {
      assert s + t == t;
    } else {
      assert (s + t)[1..] == s[1..] + t;
      OfFrequencyAppend(s[1..], t, table, f);
    }
  }

  /** Swapping neighbours of different frequencies keeps every group's order. */
  lemma SwapKeepsGroups(s: seq<string>, table: map<string, nat>, j: nat)
    requires 0 < j < |s| && WordFrequency(table, s[j - 1]) != WordFrequency(table, s[j])
    ensures SameGroups(s[j - 1 := s[j]][j := s[j - 1]], s, table)
  {
    var t := s[j - 1 := s[j]][j := s[j - 1]];
    var pre, post := s[..j - 1], s[j + 1..];
    assert s == pre + [s[j - 1], s[j]] + post;
    assert t == pre + [s[j], s[j - 1]] + post;
    forall f ensures OfFrequency(t, table, f) == OfFrequency(s, table, f) {
      var x, y := s[j - 1], s[j];
      OfFrequencyAppend(pre + [x, y], post, table, f);
      OfFrequencyAppend(pre, [x, y], table, f);
      OfFrequencyAppend(pre + [y, x], post, table, f);
      OfFrequencyAppend(pre, [y, x], table, f);
      assert [x, y][1..] == [y] && [y, x][1..] == [x];
    }
  }

  /** Reversing a list reverses each of its frequency groups. */
  lemma {:induction false} OfFrequencyReversed(s: seq<string>, table: map<string, nat>, f: nat)
    ensures OfFrequency(Reversed(s), table, f) == Reversed(OfFrequency(s, table, f))
  {
    if s != [] {
      OfFrequencyReversed(s[1..], table, f);
      OfFrequencyAppend(Reversed(s[1..]), [s[0]], table, f);
      var rest := OfFrequency(s[1..], table, f);
      if WordFrequency(table, s[0]) == f {
        var g := [s[0]] + rest;
        assert g[1..] == rest;
      }
    }
  }

  /** One round of the insertion sort: entry `i` moves left past every
      more frequent entry. */
  method InsertNext(a: array<string>, table: map<string, nat>, i: nat)
    requires i < a.Length && AscendingUpTo(a[..], table, i)
    modifies a
    ensures multiset(a[..]) == multiset(old(a[..]))
    ensures SameGroups(a[..], old(a[..]), table)
    ensures AscendingUpTo(a[..], table, i + 1)
  {
    var j := i;
    SinkStart(a[..], table, i);
    while j > 0 && WordFrequency(table, a[j - 1]) > WordFrequency(table, a[j])
      invariant 0 <= j <= i
      invariant multiset(a[..]) == multiset(old(a[..]))
      invariant SameGroups(a[..], old(a[..]), table)
      invariant Sinking(a[..], table, i, j)
    {
      ghost var s := a[..];
      SinkStep(s, table, i, j);
      SwapKeepsGroups(s, table, j);
      SwapAdjacent(a, j - 1);
      assert a[..] == s[j - 1 := s[j]][j := s[j - 1]];
      j := j - 1;
    }
    SinkDone(a[..], table, i, j);
  }

  /** `sort_by_key(word_frequency)`: a stable sort by ascending frequency
      (an insertion sort by adjacent swaps); words of equal frequency keep
      their order. */
  method SortByKeyFrequency(a: array<string>, table: map<string, nat>)
    modifies a
    ensures multiset(a[..]) == multiset(old(a[..]))
    ensures SameGroups(a[..], old(a[..]), table)
    ensures forall p, q :: 0 <= p < q < a.Length ==> WordFrequency(table, a[p]) <= WordFrequency(table, a[q])
  {
    for i := 0 to a.Length
      invariant multiset(a[..]) == multiset(old(a[..]))
      invariant SameGroups(a[..], old(a[..]), table)
      invariant AscendingUpTo(a[..], table, i)
    {
      InsertNext(a, table, i);
    }
  }

  function Reversed(s: seq<string>): (r: seq<string>)
    ensures |r| == |s| && forall k :: 0 <= k < |s| ==> r[k] == s[|s| - 1 - k]
  {
    if s == [] then [] else Reversed(s[1..]) + [s[0]]
  }

  /** `Vec::reverse`, swapping from both ends towards the middle. */
  method Reverse(a: array<string>)
    modifies a
    ensures a[..] == Reversed(old(a[..]))
  {
    var n := a.Length;
    for k := 0 to n / 2
      invariant forall m :: 0 <= m < k ==> a[m] == old(a[n - 1 - m]) && a[n - 1 - m] == old(a[m])
      invariant forall m :: k <= m < n - k ==> a[m] == old(a[m])
    {
      a[k], a[n - 1 - k] := a[n - 1 - k], a[k];
    }
  }

  lemma {:induction false} ReversedMultiset(s: seq<string>)
    ensures multiset(Reversed(s)) == multiset(s)
  {
    if s != [] {
      ReversedMultiset(s[1..]);
      assert s == [s[0]] + s[1..];
    }
  }

  /** `sort_by_frequency`: sort by ascending frequency, then reverse,
      leaving the words in non-increasing frequency order and the words of
      each frequency in the reverse of their order. */
  method SortByFrequency(a: array<string>, table: map<string, nat>)
    modifies a
    ensures multiset(a[..]) == multiset(old(a[..]))
    ensures NonIncreasing(a[..], table)
    ensures forall f :: OfFrequency(a[..], table, f) == Reversed(OfFrequency(old(a[..]), table, f))
  {
    SortByKeyFrequency(a, table);
    ghost var ascending := a[..];
    Reverse(a);
    ReversedMultiset(ascending);
    forall f ensures OfFrequency(a[..], table, f) == Reversed(OfFrequency(old(a[..]), table, f)) {
      OfFrequencyReversed(ascending, table, f);
    }
  }

  // ---------------------------------------------------------------------
  // Word list construction

  ghost predicate Distinct(s: seq<string>)
  {
    forall w :: multiset(s)[w] <= 1
  }

  lemma {:induction false} SetOfSeqSize(s: seq<string>)
    ensures |set w | w in s| <= |s|
    ensures Distinct(s) ==> |set w | w in s| == |s|
  {
    if s != [] {
      var t := s[1..];
      assert s == [s[0]] + t;
      SetOfSeqSize(t);
      assert (set w | w in s) == (set w | w in t) + {s[0]};
      if Distinct(s) {
        assert multiset(s) == multiset{s[0]} + multiset(t);
        assert multiset(s)[s[0]] == 1 + multiset(t)[s[0]];
        assert s[0] !in t;
        assert forall w :: multiset(t)[w] <= multiset(s)[w];
      }
    }
  }

  /** The solution set of a list: its first `n` entries. */
  lemma TopSlice(sorted: seq<string>, n: nat, table: map<string, nat>)
    requires n <= |sorted| && NonIncreasing(sorted, table)
    ensures (set w | w in sorted[..n]) <= (set w | w in sorted)
    ensures forall s, w :: s in sorted[..n] && w in sorted && w !in sorted[..n]
                ==> WordFrequency(table, s) >= WordFrequency(table, w)
  {
    forall s, w | s in sorted[..n] && w in sorted && w !in sorted[..n]
      ensures WordFrequency(table, s) >= WordFrequency(table, w)
    {
      var i :| 0 <= i < n && sorted[i] == s;
      var j :| 0 <= j < |sorted| && sorted[j] == w;
      assert j >= n;
    }
  }

  /** The word list whose solutions are the first `n` entries of `sorted`,
      a most-frequent-first ordering of `ws`. */
  lemma TopWordList(ws: seq<string>, sorted: seq<string>, n: nat, table: map<string, nat>)
    requires n <= |ws| == |sorted| && multiset(sorted) == multiset(ws) && NonIncreasing(sorted, table)
    ensures var wl := WordList(set w | w in sorted[..n], set w | w in sorted);
      && wl.Valid()
      && wl.words == (set w | w in ws)
      && |wl.allowedSolutions| <= n
      && (Distinct(ws) ==> |wl.allowedSolutions| == n)
      && (forall s, w :: s in wl.allowedSolutions && w in wl.words - wl.allowedSolutions
            ==> WordFrequency(table, s) >= WordFrequency(table, w))
  {
    SameElements(sorted, ws);
    TopSlice(sorted, n, table);
    TopSize(sorted, n);
  }

  /** Sequences with the same multiset hold the same words. */
  lemma SameElements(a: seq<string>, b: seq<string>)
    requires multiset(a) == multiset(b)
    ensures (set w | w in a) == (set w | w in b)
  {
    assert forall w :: w in a <==> w in multiset(a);
    assert forall w :: w in b <==> w in multiset(b);
  }

  /** The first `n` entries hold at most `n` words, exactly `n` when no word repeats. */
  lemma TopSize(sorted: seq<string>, n: nat)
    requires n <= |sorted|
    ensures |set w | w in sorted[..n]| <= n
    ensures Distinct(sorted) ==> |set w | w in sorted[..n]| == n
  {
    SetOfSeqSize(sorted[..n]);
    if Distinct(sorted) {
      assert sorted == sorted[..n] + sorted[n..];
      assert multiset(sorted) == multiset(sorted[..n]) + multiset(sorted[n..]);
      assert forall w :: multiset(sorted[..n])[w] <= multiset(sorted)[w];
    }
  }

  lemma TopNonEmpty(sorted: seq<string>, n: nat)
    requires 0 < n <= |sorted|
    ensures (set w | w in sorted[..n]) != {}
  {
    var top := set w | w in sorted[..n];
    assert sorted[..n][0] in top;
  }

  /** Some occurrence of `x` in `t` comes before every occurrence of `y`. */
  ghost predicate ListedBefore(t: seq<string>, x: string, y: string)
  {
    exists i :: 0 <= i < |t| && t[i] == x && forall j :: 0 <= j < |t| && t[j] == y ==> i < j
  }

  /** Some occurrence of `x` in `t` comes after every occurrence of `y`. */
  ghost predicate ListedAfter(t: seq<string>, x: string, y: string)
  {
    exists i :: 0 <= i < |t| && t[i] == x && forall j :: 0 <= j < |t| && t[j] == y ==> j < i
  }

  /** Taking the group of `x`'s frequency keeps `x` ahead of `y`. */
  lemma {:induction false} BeforeInGroup(t: seq<string>, table: map<string, nat>, f: nat, x: string, y: string)
    requires WordFrequency(table, x) == f && ListedBefore(t, x, y)
    ensures ListedBefore(OfFrequency(t, table, f), x, y)
  {
    var i :| 0 <= i < |t| && t[i] == x && forall j :: 0 <= j < |t| && t[j] == y ==> i < j;
    var g, rest := OfFrequency(t, table, f), OfFrequency(t[1..], table, f);
    if i == 0 {
      assert x != y;
      assert g == [x] + rest;
      assert g[0] == x && forall j :: 0 <= j < |g| && g[j] == y ==> 0 < j;
    } else {
      assert t[0] != y;
      assert ListedBefore(t[1..], x, y) by {
        assert t[1..][i - 1] == x;
        forall j | 0 <= j < |t[1..]| && t[1..][j] == y ensures i - 1 < j {
          assert t[j + 1] == y;
        }
      }
      BeforeInGroup(t[1..], table, f, x, y);
      var k :| 0 <= k < |rest| && rest[k] == x && forall j :: 0 <= j < |rest| && rest[j] == y ==> k < j;
      if WordFrequency(table, t[0]) == f {
        assert g == [t[0]] + rest;
        assert g[k + 1] == x;
        forall j | 0 <= j < |g| && g[j] == y ensures k + 1 < j {
          assert j != 0 && rest[j - 1] == y;
        }
      } else {
        assert g == rest;
      }
    }
  }

  /** What comes first in the reversal comes last in the original. */
  lemma ReversedBefore(t: seq<string>, x: string, y: string)
    requires ListedBefore(Reversed(t), x, y)
    ensures ListedAfter(t, x, y)
  {
    var r := Reversed(t);
    var i :| 0 <= i < |r| && r[i] == x && forall j :: 0 <= j < |r| && r[j] == y ==> i < j;
    assert t[|t| - 1 - i] == x;
    forall j | 0 <= j < |t| && t[j] == y ensures j < |t| - 1 - i {
      assert r[|t| - 1 - j] == y;
    }
  }

  /** An order within the group of `y`'s frequency is an order in the whole list. */
  lemma {:induction false} AfterFromGroup(t: seq<string>, table: map<string, nat>, f: nat, x: string, y: string)
    requires WordFrequency(table, y) == f && ListedAfter(OfFrequency(t, table, f), x, y)
    ensures ListedAfter(t, x, y)
  {
    var g, rest := OfFrequency(t, table, f), OfFrequency(t[1..], table, f);
    var i :| 0 <= i < |g| && g[i] == x && forall j :: 0 <= j < |g| && g[j] == y ==> j < i;
    var h := if WordFrequency(table, t[0]) == f then [t[0]] else [];
    assert g == h + rest;
    if h != [] && i == 0 {
      OfFrequencyMembers(t, table, f, y);
      assert y !in g;
      assert t[0] == x;
    } else {
      assert ListedAfter(rest, x, y) by {
        assert rest[i - |h|] == x;
        forall j | 0 <= j < |rest| && rest[j] == y ensures j < i - |h| {
          assert g[j + |h|] == y;
        }
      }
      AfterFromGroup(t[1..], table, f, x, y);
      var k :| 0 <= k < |t[1..]| && t[1..][k] == x && forall j :: 0 <= j < |t[1..]| && t[1..][j] == y ==> j < k;
      assert t[k + 1] == x;
      forall j | 0 <= j < |t| && t[j] == y ensures j < k + 1 {
        if j != 0 {
          assert t[1..][j - 1] == y;
        }
      }
    }
  }

  /** Among words of equal frequency, those within the first `n` entries of
      `sorted` are listed in `ws` after those beyond: `sorted` holds each
      frequency's words in the reverse of their order in `ws`. */
  lemma TopTies(ws: seq<string>, sorted: seq<string>, n: nat, table: map<string, nat>)
    requires n <= |sorted|
    requires forall f :: OfFrequency(sorted, table, f) == Reversed(OfFrequency(ws, table, f))
    ensures forall s, w :: (s in sorted[..n] && w in sorted && w !in sorted[..n]
                            && WordFrequency(table, s) == WordFrequency(table, w)) ==> ListedAfter(ws, s, w)
  {
    forall s, w | s in sorted[..n] && w in sorted && w !in sorted[..n]
                  && WordFrequency(table, s) == WordFrequency(table, w)
      ensures ListedAfter(ws, s, w)
    {
      var f := WordFrequency(table, s);
      var p :| 0 <= p < n && sorted[..n][p] == s;
      assert ListedBefore(sorted, s, w) by {
        assert sorted[p] == s;
        assert forall j :: 0 <= j < n ==> sorted[j] in sorted[..n];
      }
      BeforeInGroup(sorted, table, f, s, w);
      ReversedBefore(OfFrequency(ws, table, f), s, w);
      AfterFromGroup(ws, table, f, s, w);
    }
  }

  /** `sorted` is what `sort_by_frequency` leaves of `ws`: the same words in
      non-increasing frequency, each frequency's words in the reverse of
      their order in `ws`.  This fixes `sorted`. */
  ghost predicate SortedFrom(sorted: seq<string>, ws: seq<string>, table: map<string, nat>)
  {
    && multiset(sorted) == multiset(ws)
    && NonIncreasing(sorted, table)
    && forall f :: OfFrequency(sorted, table, f) == Reversed(OfFrequency(ws, table, f))
  }

  /** `wl` is the word list `WordList::new` builds from `ws` with `n`
      solutions: every word is a guess, and the solutions are the words among
      the first `n` of the frequency-sorted list, so `n` of the most frequent
      words (fewer when words repeat), ties at the cutoff going to the words
      listed later. */
  ghost predicate IsTopList(wl: WordList, ws: seq<string>, n: nat, table: map<string, nat>)
  {
    && (exists sorted :: SortedFrom(sorted, ws, table) && n <= |sorted|
                         && wl.allowedSolutions == set w | w in sorted[..n])
    && wl.Valid()
    && wl.words == (set w | w in ws)
    && |wl.allowedSolutions| <= n
    && (Distinct(ws) ==> |wl.allowedSolutions| == n)
    && (0 < n ==> wl.allowedSolutions != {})
    && (forall s, w :: s in wl.allowedSolutions && w in wl.words - wl.allowedSolutions
          ==> WordFrequency(table, s) >= WordFrequency(table, w))
    && (forall s, w :: (s in wl.allowedSolutions && w in wl.words - wl.allowedSolutions
                        && WordFrequency(table, s) == WordFrequency(table, w)) ==> ListedAfter(ws, s, w))
  }

  /** A list whose words all have frequency `f` is its own group. */
  lemma {:induction false} OfFrequencyAll(s: seq<string>, table: map<string, nat>, f: nat)
    requires forall i :: 0 <= i < |s| ==> WordFrequency(table, s[i]) == f
    ensures OfFrequency(s, table, f) == s
  {
    if s != [] {
      OfFrequencyAll(s[1..], table, f);
      assert s == [s[0]] + s[1..];
    }
  }

  /** When every word has the same frequency, sorting by frequency and
      reversing leaves the reversed list. */
  lemma SortedUniform(sorted: seq<string>, ws: seq<string>, table: map<string, nat>, f: nat)
    requires SortedFrom(sorted, ws, table)
    requires forall i :: 0 <= i < |ws| ==> WordFrequency(table, ws[i]) == f
    ensures sorted == Reversed(ws)
  {
    OfFrequencyAll(ws, table, f);
    forall i | 0 <= i < |sorted| ensures WordFrequency(table, sorted[i]) == f {
      assert sorted[i] in multiset(sorted);
      assert sorted[i] in ws;
    }
    OfFrequencyAll(sorted, table, f);
  }

  /** When every word has the same frequency, the solutions are the words
      among the last `n` entries of the list, last first. */
  lemma TopListUniform(wl: WordList, ws: seq<string>, n: nat, table: map<string, nat>, f: nat)
    requires IsTopList(wl, ws, n, table)
    requires forall i :: 0 <= i < |ws| ==> WordFrequency(table, ws[i]) == f
    ensures n <= |ws| && wl.allowedSolutions == set w | w in Reversed(ws)[..n]
  {
    var sorted :| SortedFrom(sorted, ws, table) && n <= |sorted|
                  && wl.allowedSolutions == set w | w in sorted[..n];
    SortedUniform(sorted, ws, table, f);
  }

  /** With a repeated word: from ["a", "a", "b"], all unknown to the table,
      the top two are "b" and "a", as the stable sort then reversal gives. */
  lemma TopListWithRepeats(wl: WordList)
    requires IsTopList(wl, ["a", "a", "b"], 2, map[])
    ensures wl.allowedSolutions == {"a", "b"}
  {
    TopListUniform(wl, ["a", "a", "b"], 2, map[], 0);
    LastTwoOfExample();
  }

  lemma LastTwoOfExample()
    ensures (set w | w in Reversed(["a", "a", "b"])[..2]) == {"a", "b"}
  {
    var top := Reversed(["a", "a", "b"])[..2];
    assert top == ["b", "a"];
    assert forall w :: w in top <==> w == "a" || w == "b";
  }

  /** `WordList::new`: every word is a guess; the `n` most frequent are the
      solutions.  Taking more than there are words panics. */
  method NewWordList(ws: seq<string>, n: nat, table: map<string, nat>) returns (wl: WordList)
    requires n <= |ws|
    ensures IsTopList(wl, ws, n, table)
  {
    var a := new string[|ws|](i requires 0 <= i < |ws| => ws[i]);
    assert a[..] == ws;
    SortByFrequency(a, table);
    var sorted := a[..];
    TopWordList(ws, sorted, n, table);
    TopTies(ws, sorted, n, table);
    assert SortedFrom(sorted, ws, table);
    if 0 < n {
      TopNonEmpty(sorted, n);
    }
    wl := WordList(set w | w in sorted[..n], set w | w in sorted);
  }

  /** The text a source's words come from. */
  function SourceText(source: WordSource, wordleText: string, scrabbleText: string, dictionaryText: string): string
  {
    match source
    case Wordle => wordleText
    case Scrabble(_, _) => scrabbleText
    case Dictionary(_, _) => dictionaryText
  }

  /** The words of a source's letter count in its text. */
  function SourceWords(source: WordSource, wordleText: string, scrabbleText: string, dictionaryText: string): seq<string>
  {
    WordsOf(SourceText(source, wordleText, scrabbleText, dictionaryText), source.LetterCount())
  }

  /** `WordList::from_source`: the source's words of its letter count, with
      its number of top solutions (the 2315 most frequent for Wordle). */
  method FromSource(source: WordSource, wordleText: string, scrabbleText: string, dictionaryText: string,
                    table: map<string, nat>) returns (wl: WordList)
    requires source.SolutionCount() <= |SourceWords(source, wordleText, scrabbleText, dictionaryText)|
    ensures IsTopList(wl, SourceWords(source, wordleText, scrabbleText, dictionaryText), source.SolutionCount(), table)
    ensures forall w :: w in wl.words ==> Utf8Len(w) == source.LetterCount()
  {
    var ws;
    match source {
      case Wordle =>
        ws := GetWords(wordleText, WordleLetterCount);
        wl := NewWordList(ws, WordleSolutionCount, table);
      case Scrabble(letterCount, topN) =>
        ws := GetWords(scrabbleText, letterCount);
        wl := NewWordList(ws, topN, table);
      case Dictionary(letterCount, topN) =>
        ws := GetWords(dictionaryText, letterCount);
        wl := NewWordList(ws, topN, table);
    }
  }
}
