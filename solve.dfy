/**
 * The procedural elimination engine of solve.py: scoring, best-word choice,
 * and the in-place pruning of a candidate list from one guess and its colours.
 */
module Solve {
  import opened Outcomes
  import opened Lists
  import opened Letters
  import opened Scoring
  import opened Feedback

  /** The score of `word`, or KeyError at the first letter without a weight. */
  method GetScore(word: string) returns (r: Result<nat>)
    ensures r.Ok? <==> Scorable(word)
    ensures r.Ok? ==> r.value == Score(word)
    ensures r.Err? ==> r.error == KeyError
  {
    SheetIsAlphabet();
    assert LettersOf(word[..0]) == {};
    EmptyWeight(Alphabet);
    var score := 0;
    var seen: set<char> := {};
    for i := 0 to |word|
      invariant seen == LettersOf(word[..i])
      invariant Scorable(word[..i])
      invariant score == Score(word[..i])
    {
      var letter := word[i];
      ScoreStep(word, i);
      if letter !in seen {
        if letter !in ScoreSheet {
          return Err(KeyError);
        }
        score := score + ScoreSheet[letter];
      }
      seen := seen + {letter};
    }
    assert word[..|word|] == word;
    return Ok(score);
  }

  /**
   * The first highest-scoring word of `words`: IndexError on an empty list,
   * KeyError when some word has a letter without a weight.
   */
  method GetBestWord(words: seq<string>) returns (r: Result<string>)
    ensures |words| == 0 ==> r == Err(IndexError)
    ensures |words| > 0 && (exists i :: 0 <= i < |words| && !Scorable(words[i])) ==> r == Err(KeyError)
    ensures r.Ok? <==> |words| > 0 && forall i :: 0 <= i < |words| ==> Scorable(words[i])
    ensures r.Ok? ==> exists k :: 0 <= k < |words| && r.value == words[k] && IsFirstBest(words, k)
  {
    if |words| == 0 {
      return Err(IndexError);
    }
    var bestScore := 0;
    var bestWord := words[0];
    ghost var best := 0;
    for i := 0 to |words|
      invariant forall j :: 0 <= j < i ==> Scorable(words[j])
      invariant best < |words| && bestWord == words[best]
      invariant i == 0 ==> best == 0 && bestScore == 0
      invariant i > 0 ==> best < i && bestScore == Score(words[best]) && IsFirstBest(words[..i], best)
    {
      var score := GetScore(words[i]);
      if score.Err? {
        return Err(KeyError);
      }
      if score.value > bestScore {
        bestScore := score.value;
        bestWord := words[i];
        best := i;
      }
    }
    assert words[..|words|] == words;
    return Ok(bestWord);
  }

  /** The number of occurrences of `letter` in `word`. */
  method CountLetter(word: string, letter: char) returns (count: nat)
    ensures count == Count(word, letter)
    ensures count <= |word|
    ensures count > 0 <==> letter in word
  {
    count := 0;
    for i := 0 to |word|
      invariant count == Count(word[..i], letter)
    {
      assert word[..i + 1] == word[..i] + [word[i]];
      if word[i] == letter {
        count := count + 1;
      }
    }
    assert word[..|word|] == word;
    CountBounds(word, letter);
  }

  /** Python's `del s[p]`: a negative position counts from the end, and one outside the list raises `IndexError`. */
  function Del<T>(s: seq<T>, p: int): (r: Result<seq<T>>)
    ensures r.Ok? <==> -|s| <= p < |s|
    ensures r.Ok? && p >= 0 ==> r.value == s[..p] + s[p + 1..]
    ensures r.Ok? && p < 0 ==> r.value == s[..|s| + p] + s[|s| + p + 1..]
    ensures r.Err? ==> r.error == IndexError
  {
    if 0 <= p < |s| then Ok(s[..p] + s[p + 1..])
    else if -|s| <= p < 0 then Ok(s[..|s| + p] + s[|s| + p + 1..])
    else Err(IndexError)
  }

  /**
   * The loop of `delete_indices` as written, visiting the positions in the
   * order `order`: each is deleted at its position less the number of
   * deletions before it.
   */
  function DeleteInOrder<T>(s: seq<T>, order: seq<nat>, numDeleted: nat): (r: Result<seq<T>>)
    ensures r.Ok? ==> |r.value| == |s| - |order|
    decreases |order|
  {
    if order == [] then Ok(s)
    else
      match Del(s, order[0] - numDeleted)
      case Err(e) => Err(e)
      case Ok(t) => DeleteInOrder(t, order[1..], numDeleted + 1)
  }

  /**
   * The loop as written is right when it visits the positions in ascending
   * order: it removes exactly them and keeps the other words in order.
   */
  lemma DeleteAscending<T>(s: seq<T>, order: seq<nat>)
    requires Increasing(order)
    requires forall k :: 0 <= k < |order| ==> order[k] < |s|
    ensures DeleteInOrder(s, order, 0) == Ok(Without(s, Positions(order)))
  {
    WithoutNothing(s);
    assert {} + Positions(order) == Positions(order);
    DeleteAscendingFrom(s, {}, order);
  }

  /** The remaining deletions `rest` of an ascending visit, once the positions `gone` are deleted. */
  lemma {:induction false} DeleteAscendingFrom<T>(s: seq<T>, gone: set<nat>, rest: seq<nat>)
    requires Increasing(rest)
    requires forall i :: 0 <= i < |rest| ==> rest[i] < |s|
    requires rest != [] ==> forall j :: j in gone ==> j < rest[0]
    ensures DeleteInOrder(Without(s, gone), rest, |gone|) == Ok(Without(s, gone + Positions(rest)))
    decreases |rest|
  {
    if rest == [] {
      assert gone + Positions(rest) == gone;
    } else {
      var p, tail := rest[0], rest[1..];
      var next := gone + {p};
      IncreasingTail(rest);
      assert next + Positions(tail) == gone + Positions(rest);
      assert Increasing(tail);
      assert forall i :: 0 <= i < |tail| ==> tail[i] < |s|;
      assert tail != [] ==> forall j :: j in next ==> j < tail[0];
      DeleteAscendingFrom(s, next, tail);
      DeleteFirstAscending(s, gone, rest);
    }
  }

  /** The first deletion of an ascending visit removes its position from the list. */
  lemma DeleteFirstAscending<T>(s: seq<T>, gone: set<nat>, rest: seq<nat>)
    requires rest != [] && rest[0] < |s|
    requires forall j :: j in gone ==> j < rest[0]
    ensures |gone + {rest[0]}| == |gone| + 1
    ensures DeleteInOrder(Without(s, gone), rest, |gone|)
         == DeleteInOrder(Without(s, gone + {rest[0]}), rest[1..], |gone| + 1)
  {
    var p := rest[0];
    DeleteNext(s, gone, p);
    assert Del(Without(s, gone), p - |gone|) == Ok(Without(s, gone + {p}));
  }

  /**
   * A set is not visited in ascending order in general. CPython keeps the set
   * `{1, 8}` in an 8-slot table where 8 starts its probe at the free slot 0,
   * so the loop visits 8 before 1: on nine words it deletes the words at 8
   * and at 0, where the words at 1 and 8 were meant.
   */
  lemma SetOrderDeletesWrongWord()
    ensures var s := ["a", "b", "c", "d", "e", "f", "g", "h", "i"];
      && DeleteInOrder(s, [8, 1], 0) == Ok(["b", "c", "d", "e", "f", "g", "h"])
      && Without(s, {1, 8}) == ["a", "c", "d", "e", "f", "g", "h"]
  {
    var s := ["a", "b", "c", "d", "e", "f", "g", "h", "i"];
    var t := ["a", "b", "c", "d", "e", "f", "g", "h"];
    var u := ["b", "c", "d", "e", "f", "g", "h"];
    assert s[..8] == t;
    assert DeleteInOrder(s, [8, 1], 0) == Ok(u) by {
      assert s[..8] + s[9..] == t;
      assert Del(s, 8) == Ok(t);
      assert t[..0] + t[1..] == u;
      assert Del(t, 0) == Ok(u);
      assert [8, 1][1..] == [1];
      assert DeleteInOrder(t, [1], 1) == DeleteInOrder(u, [], 2);
    }
    assert Without(s, {1, 8}) == ["a", "c", "d", "e", "f", "g", "h"] by {
      WithoutOne(t, 1);
      WithoutSameGone(t, {1, 8}, {1});
    }
  }

  /** The positions in `indices`, all below `n`, in ascending order: Python's `sorted(indices)`. */
  method SortedPositions(indices: set<nat>, n: nat) returns (order: seq<nat>)
    requires forall j :: j in indices ==> j < n
    ensures Increasing(order)
    ensures Positions(order) == indices
    ensures forall k :: 0 <= k < |order| ==> order[k] < n
  {
    order := [];
    for j := 0 to n
      invariant Increasing(order)
      invariant forall k :: 0 <= k < |order| ==> order[k] < j
      invariant forall i :: i in order <==> i in indices && i < j
    {
      if j in indices {
        order := order + [j];
      }
    }
  }

  /**
   * Deletes from `list` the positions in `indices`, visiting them in ascending
   * order and shifting each down by the number already deleted. Ascending
   * order is what this shift needs; Python's iteration of a set does not
   * guarantee it (see `SetOrderDeletesWrongWord`).
   */
  method DeleteIndices(list: WordList, indices: set<nat>)
    requires forall j :: j in indices ==> j < |list.words|
    modifies list
    ensures list.words == Without(old(list.words), indices)
    ensures |list.words| == |old(list.words)| - |indices|
  {
    ghost var original := list.words;
    var order := SortedPositions(indices, |list.words|);
    WithoutNothing(original);
    assert Positions(order[..0]) == {};
    var numDeleted := 0;
    for k := 0 to |order|
      invariant numDeleted == k
      invariant list.words == Without(original, Positions(order[..k]))
    {
      var index := order[k];
      IncreasingStep(order, k);
      DeleteNext(original, Positions(order[..k]), index);
      list.words := list.words[..index - numDeleted] + list.words[index - numDeleted + 1..];
      numDeleted := numDeleted + 1;
    }
    assert order[..|order|] == order;
    WithoutLength(original, indices);
  }

  /** The letter whose second occurrence comes first in `word`, or None when its letters are distinct. */
  method FindDuplicateLetter(word: string) returns (r: Option<char>)
    ensures r == DuplicateLetter(word)
  {
    var seen: set<char> := {};
    for i := 0 to |word|
      invariant seen == set k | 0 <= k < i :: word[k]
      invariant DuplicateLetter(word[..i]) == None
    {
      var letter := word[i];
      assert word[..i + 1][..i] == word[..i];
      if letter in seen {
        DuplicateLetterOfPrefix(word, i + 1);
        return Some(letter);
      }
      seen := seen + {letter};
    }
    assert word[..|word|] == word;
    return None;
  }

  /**
   * The joint rule for the duplicate letter guessed at positions `a` (first)
   * and `b` (last), chosen by their pair of colours: does candidate `c` survive?
   */
  predicate DuplicateKeep(c: string, guess: string, colors: seq<Color>, a: nat, b: nat)
    requires a < |guess| && b < |guess| && |colors| == |guess|
  {
    match colors[a]
    case G =>
      && HasAt(c, a, guess[a])
      && (match colors[b]
          case G => HasAt(c, b, guess[b])
          case Y => Count(c, guess[b]) >= 2 && !HasAt(c, b, guess[b])
          case B => Count(c, guess[b]) <= 1
          case Other => true)
    case Y =>
      && !HasAt(c, a, guess[a])
      && (match colors[b]
          case G => HasAt(c, b, guess[b]) && Count(c, guess[a]) >= 2
          case Y => !HasAt(c, b, guess[b]) && Count(c, guess[a]) >= 2
          case B => Count(c, guess[a]) <= 1
          case Other => true)
    case B =>
      (match colors[b]
       case G => Count(c, guess[a]) <= 1 && HasAt(c, b, guess[b])
       case Y => Count(c, guess[a]) <= 1 && !HasAt(c, b, guess[b])
       case B => guess[a] !in c
       case Other => true)
    case Other => true
  }

  /** DuplicateKeep as a condition on candidates. */
  function DuplicateRule(guess: string, colors: seq<Color>, a: nat, b: nat): string -> bool
    requires a < |guess| && b < |guess| && |colors| == |guess|
  {
    c => DuplicateKeep(c, guess, colors, a, b)
  }

  /** The candidates that survive the joint rule for the letter `x` of `guess`. */
  function DuplicateSurvivors(ws: seq<string>, colors: seq<Color>, guess: string, x: char): seq<string>
    requires |colors| == |guess| && x in guess
  {
    Filter(ws, DuplicateRule(guess, colors, FirstIndex(guess, x), LastIndex(guess, x)))
  }

  /**
   * The candidate list after one guess: first the joint rule for the guess's
   * duplicate letter, if any, then the base pass.
   */
  function Survivors(ws: seq<string>, colors: seq<Color>, guess: string): seq<string>
    requires |colors| == |guess|
  {
    var dup := DuplicateLetter(guess);
    var pruned := if dup.Some? then DuplicateSurvivors(ws, colors, guess, dup.value) else ws;
    Filter(pruned, BaseRule(guess, colors, dup))
  }

  /** The first and last position of the letter `x`, which occurs at least twice in `guess`. */
  method DuplicatePositions(guess: string, x: char) returns (indexA: int, indexB: int)
    requires OccursTwice(guess, x)
    ensures x in guess && indexA == FirstIndex(guess, x) && indexB == LastIndex(guess, x)
    ensures indexA < indexB
  {
    indexA, indexB := -1, -1;
    for i := 0 to |guess|
      invariant -1 <= indexA < i && -1 <= indexB < i
      invariant indexA == -1 ==> forall k :: 0 <= k < i ==> guess[k] != x
      invariant indexA >= 0 ==> guess[indexA] == x && forall k :: 0 <= k < indexA ==> guess[k] != x
      invariant indexB >= 0 ==> indexA < indexB && guess[indexB] == x && forall k :: indexB < k < i ==> guess[k] != x
      invariant indexA >= 0 && indexB == -1 ==> forall k :: indexA < k < i ==> guess[k] != x
    {
      if guess[i] == x {
        if indexA < 0 {
          indexA := i;
        } else {
          indexB := i;
        }
      }
    }
    FirstBeforeLast(guess, x);
  }

  /** Whether the joint rule at positions `indexA` and `indexB` deletes candidate `w`. */
  method FailsJointRule(w: string, guess: string, colors: seq<Color>, indexA: nat, indexB: nat) returns (remove: bool)
    requires indexA < |guess| && indexB < |guess| && |colors| == |guess| && |w| == |guess|
    ensures remove <==> !DuplicateKeep(w, guess, colors, indexA, indexB)
  {
    remove := false;
    if colors[indexA] == G {
      if w[indexA] != guess[indexA] {
        remove := true;
      }
      if colors[indexB] == G {
        if w[indexB] != guess[indexB] {
          remove := true;
        }
      }
      if colors[indexB] == Y {
        var n := CountLetter(w, guess[indexB]);
        if n < 2 || guess[indexB] == w[indexB] {
          remove := true;
        }
      }
      if colors[indexB] == B {
        var n := CountLetter(w, guess[indexB]);
        if n > 1 {
          remove := true;
        }
      }
    }
    if colors[indexA] == Y {
      if guess[indexA] == w[indexA] {
        remove := true;
      }
      if colors[indexB] == G {
        var n := CountLetter(w, guess[indexA]);
        if w[indexB] != guess[indexB] || n < 2 {
          remove := true;
        }
      }
      if colors[indexB] == Y {
        var n := CountLetter(w, guess[indexA]);
        if guess[indexB] == w[indexB] || n < 2 {
          remove := true;
        }
      }
      if colors[indexB] == B {
        var n := CountLetter(w, guess[indexA]);
        if n > 1 {
          remove := true;
        }
      }
    }
    if colors[indexA] == B {
      if colors[indexB] == G {
        var n := CountLetter(w, guess[indexA]);
        if n > 1 || w[indexB] != guess[indexB] {
          remove := true;
        }
      }
      if colors[indexB] == Y {
        var n := CountLetter(w, guess[indexA]);
        if n > 1 || guess[indexB] == w[indexB] {
          remove := true;
        }
      }
      if colors[indexB] == B {
        if guess[indexA] in w {
          remove := true;
        }
      }
    }
  }

  /** Finds the first and last position of `x` in `guess`, then prunes `list` by their joint rule. */
  method HandleDuplicate(list: WordList, colors: seq<Color>, guess: string, x: char)
    requires |colors| == |guess| && OccursTwice(guess, x)
    requires forall w :: w in list.words ==> |w| == |guess|
    modifies list
    ensures list.words == DuplicateSurvivors(old(list.words), colors, guess, x)
  {
    var indexA, indexB := DuplicatePositions(guess, x);
    ghost var ws := list.words;
    var flagged: set<nat> := {};
    for j := 0 to |list.words|
      invariant list.words == ws
      invariant forall k :: k in flagged <==> 0 <= k < j && !DuplicateKeep(ws[k], guess, colors, indexA, indexB)
    {
      var remove := FailsJointRule(list.words[j], guess, colors, indexA, indexB);
      if remove {
        flagged := flagged + {j};
      }
    }
    WithoutFlagged(ws, flagged, DuplicateRule(guess, colors, indexA, indexB));
    DeleteIndices(list, flagged);
  }

  /**
   * Prunes `list` in place after `guess` was answered with `colors`: the joint
   * rule for a duplicate letter, then the base pass over every position.
   */
  method UpdateWordList(list: WordList, colors: seq<Color>, guess: string)
    requires |colors| == |guess|
    requires forall w :: w in list.words ==> |w| == |guess|
    modifies list
    ensures list.words == Survivors(old(list.words), colors, guess)
  {
    var dup := FindDuplicateLetter(guess);
    if dup.Some? {
      DuplicateLetterOccursTwice(guess);
      HandleDuplicate(list, colors, guess, dup.value);
    }
    ghost var ws := list.words;
    var flagged: set<nat> := {};
    for i := 0 to |colors|
      invariant list.words == ws
      invariant forall k :: k in flagged <==> 0 <= k < |ws| && !BaseKeepUpTo(ws[k], guess, colors, dup, i)
    {
      for j := 0 to |list.words|
        invariant list.words == ws
        invariant forall k :: k in flagged <==>
          0 <= k < |ws| && (!BaseKeepUpTo(ws[k], guess, colors, dup, i) || (k < j && !BaseKeepUpTo(ws[k], guess, colors, dup, i + 1)))
      {
        var remove := FailsBaseRound(list.words[j], guess, colors, dup, i);
        if remove {
          flagged := flagged + {j};
        }
      }
    }
    WithoutFlagged(ws, flagged, BaseRule(guess, colors, dup));
    DeleteIndices(list, flagged);
  }

  /**
   * A candidate survives exactly when it was in the list, meets the joint rule
   * of the guess's duplicate letter (if any), and meets the base pass.
   */
  lemma SurvivorsMeaning(ws: seq<string>, colors: seq<Color>, guess: string, c: string)
    requires |colors| == |guess|
    ensures var dup := DuplicateLetter(guess);
      c in Survivors(ws, colors, guess) <==>
        && c in ws
        && (dup.Some? ==> DuplicateKeep(c, guess, colors, FirstIndex(guess, dup.value), LastIndex(guess, dup.value)))
        && BaseKeep(c, guess, colors, dup)
  {
  }

  /** Pruning never adds a word and keeps the survivors in their original order. */
  lemma SurvivorsSubsequence(ws: seq<string>, colors: seq<Color>, guess: string)
    requires |colors| == |guess|
    ensures |Survivors(ws, colors, guess)| <= |ws|
    ensures IsSubsequence(Survivors(ws, colors, guess), ws)
  {
    var dup := DuplicateLetter(guess);
    var base := BaseRule(guess, colors, dup);
    if dup.Some? {
      var pruned := DuplicateSurvivors(ws, colors, guess, dup.value);
      var joint := DuplicateRule(guess, colors, FirstIndex(guess, dup.value), LastIndex(guess, dup.value));
      assert pruned == Filter(ws, joint);
      assert Survivors(ws, colors, guess) == Filter(pruned, base);
      FilterFilter(ws, joint, base);
      FilterIsSubsequence(ws, Both(joint, base));
    } else {
      assert Survivors(ws, colors, guess) == Filter(ws, base);
      FilterIsSubsequence(ws, base);
    }
  }

  /** Once any colour is given, the guess itself never survives. */
  lemma GuessRemoved(ws: seq<string>, colors: seq<Color>, guess: string)
    requires 0 < |colors| == |guess|
    ensures guess !in Survivors(ws, colors, guess)
  {
    BaseKeepUpToMeaning(guess, guess, colors, DuplicateLetter(guess), |colors|);
  }

  /**
   * For green, yellow and black colours the joint rule is the count-based
   * rule, except that the pairs (yellow, black) and (black, yellow) also keep
   * candidates without any copy of the letter.
   */
  lemma JointRuleAgainstCountRule(c: string, guess: string, colors: seq<Color>, a: nat, b: nat)
    requires a < b < |guess| == |colors| && guess[a] == guess[b]
    requires colors[a] != Other && colors[b] != Other
    ensures DuplicateKeep(c, guess, colors, a, b) <==>
      || CountRule(c, guess, colors, a, b)
      || (((colors[a], colors[b]) == (Y, B) || (colors[a], colors[b]) == (B, Y)) && guess[a] !in c)
  {
    var x := guess[a];
    CountBounds(c, x);
    if HasAt(c, a, x) && HasAt(c, b, x) {
      CountTwoPositions(c, x, a, b);
    }
  }
}
