/**
 * The object-based copy of the elimination engine: a `WordleHelper` holds the
 * candidate list in a field and rebuilds it after every guess.
 */
module Helper {
  import opened Outcomes
  import opened Lists
  import opened Letters
  import opened Scoring
  import opened Feedback

  /** The greatest element of a non-empty sequence (Python's `max`). */
  function Max(s: seq<nat>): (m: nat)
    requires |s| > 0
    ensures m in s && forall i :: 0 <= i < |s| ==> s[i] <= m
  {
    if |s| == 1 then s[0]
    else
      var rest := Max(s[1..]);
      assert forall i :: 1 <= i < |s| ==> s[i] == s[1..][i - 1];
      if s[0] >= rest then s[0] else rest
  }

  /** The position of the first occurrence of `x` in `s` (Python's `list.index`). */
  function IndexOf(s: seq<nat>, x: nat): (k: nat)
    requires x in s
    ensures k < |s| && s[k] == x && forall i :: 0 <= i < k ==> s[i] != x
  {
    if s[0] == x then 0 else 1 + IndexOf(s[1..], x)
  }

  /**
   * The joint rule of the helper for the duplicate letter at positions `a`
   * (first) and `b` (last), when the colour at `a` is not black (black there
   * raises before any word is judged).
   */
  predicate HelperDuplicateKeep(c: string, guess: string, colors: seq<Color>, a: nat, b: nat)
    requires a < |guess| && b < |guess| && |colors| == |guess| && colors[a] != B
  {
    match colors[a]
    case G =>
      && HasAt(c, a, guess[a])
      && (match colors[b]
          case G => HasAt(c, b, guess[b])
          case Y => Count(c, guess[b]) >= 2 && !HasAt(c, b, guess[b])
          case B => Count(c, guess[b]) <= 1
          case Other => true)
    case Y =>
      && !HasAt(c, a, guess[a])
      && (match colors[b]
          case G => HasAt(c, b, guess[b]) && Count(c, guess[a]) >= 2
          case Y => !HasAt(c, b, guess[b]) && Count(c, guess[a]) >= 2
          case B => Count(c, guess[a]) <= 1 && !HasAt(c, b, guess[b])
          case Other => true)
    case Other => true
  }

  /** HelperDuplicateKeep as a condition on candidates. */
  function HelperDuplicateRule(guess: string, colors: seq<Color>, a: nat, b: nat): string -> bool
    requires a < |guess| && b < |guess| && |colors| == |guess| && colors[a] != B
  {
    c => HelperDuplicateKeep(c, guess, colors, a, b)
  }

  /**
   * What handling the duplicate letter `x` does to the candidate list `ws`:
   * black at its first position raises TypeError as soon as there is a word to
   * judge; otherwise the survivors of the joint rule, in their original order.
   */
  function HandleDuplicateResult(ws: seq<string>, colors: seq<Color>, guess: string, x: char): Result<seq<string>>
    requires |colors| == |guess| && x in guess
  {
    var a, b := FirstIndex(guess, x), LastIndex(guess, x);
    if colors[a] == B then
      if ws == [] then Ok([]) else Err(TypeError)
    else
      Ok(Filter(ws, HelperDuplicateRule(guess, colors, a, b)))
  }

  /** What one update does to the candidate list: the duplicate handling, if any, then the base pass. */
  function UpdateResult(ws: seq<string>, colors: seq<Color>, guess: string): Result<seq<string>>
    requires |colors| == |guess|
  {
    var dup := DuplicateLetter(guess);
    var pruned := if dup.Some? then HandleDuplicateResult(ws, colors, guess, dup.value) else Ok(ws);
    match pruned
    case Err(e) => Err(e)
    case Ok(p) => Ok(Filter(p, BaseRule(guess, colors, dup)))
  }

  /**
   * For green and yellow at the first position and green, yellow or black at
   * the last, the helper's joint rule is the count-based rule together with
   * "a black last position does not hold the letter", except that the pair
   * (yellow, black) also keeps candidates without any copy of the letter.
   */
  lemma HelperJointRuleAgainstCountRule(c: string, guess: string, colors: seq<Color>, a: nat, b: nat)
    requires a < b < |guess| == |colors| && guess[a] == guess[b]
    requires (colors[a] == G || colors[a] == Y) && colors[b] != Other
    ensures HelperDuplicateKeep(c, guess, colors, a, b) <==>
      || (CountRule(c, guess, colors, a, b) && (colors[b] == B ==> !HasAt(c, b, guess[b])))
      || ((colors[a], colors[b]) == (Y, B) && guess[a] !in c)
  {
    var x := guess[a];
    CountBounds(c, x);
    if HasAt(c, a, x) && HasAt(c, b, x) {
      CountTwoPositions(c, x, a, b);
    }
  }

  /**
   * An update fails exactly when the guess repeats a letter whose first
   * position is black and there is a candidate to judge; it keeps exactly the
   * candidates that meet the joint rule, when there is one, and the base pass.
   */
  lemma UpdateResultMeaning(ws: seq<string>, colors: seq<Color>, guess: string, c: string)
    requires |colors| == |guess|
    ensures var dup := DuplicateLetter(guess);
      && (UpdateResult(ws, colors, guess).Err? <==>
            dup.Some? && colors[FirstIndex(guess, dup.value)] == B && ws != [])
      && (UpdateResult(ws, colors, guess).Err? ==> UpdateResult(ws, colors, guess).error == TypeError)
      && (UpdateResult(ws, colors, guess).Ok? ==>
            (c in UpdateResult(ws, colors, guess).value <==>
               && c in ws
               && (dup.Some? ==> HelperDuplicateKeep(c, guess, colors, FirstIndex(guess, dup.value), LastIndex(guess, dup.value)))
               && BaseKeep(c, guess, colors, dup)))
  {
    var dup := DuplicateLetter(guess);
    if dup.Some? {
      var a, b := FirstIndex(guess, dup.value), LastIndex(guess, dup.value);
      if colors[a] == B && ws == [] {
        assert UpdateResult(ws, colors, guess) == Ok([]);
      }
    }
  }

  /** A successful update never adds a word and keeps the survivors in their original order. */
  lemma UpdateResultSubsequence(ws: seq<string>, colors: seq<Color>, guess: string)
    requires |colors| == |guess|
    ensures UpdateResult(ws, colors, guess).Ok? ==>
      && |UpdateResult(ws, colors, guess).value| <= |ws|
      && IsSubsequence(UpdateResult(ws, colors, guess).value, ws)
  {
    var dup := DuplicateLetter(guess);
    var base := BaseRule(guess, colors, dup);
    if dup.Some? {
      var a, b := FirstIndex(guess, dup.value), LastIndex(guess, dup.value);
      if colors[a] != B {
        var joint := HelperDuplicateRule(guess, colors, a, b);
        assert UpdateResult(ws, colors, guess) == Ok(Filter(Filter(ws, joint), base));
        FilterFilter(ws, joint, base);
        FilterIsSubsequence(ws, Both(joint, base));
      } else if ws == [] {
        assert UpdateResult(ws, colors, guess) == Ok(Filter([], base));
        FilterIsSubsequence(ws, base);
      }
    } else {
      assert UpdateResult(ws, colors, guess) == Ok(Filter(ws, base));
      FilterIsSubsequence(ws, base);
    }
  }

  /**
   * When the duplicate handling leaves `pruned` (or there is no repeated
   * letter and `pruned` is the list), the update is the base pass over it.
   */
  lemma UpdateAfterPruning(ws: seq<string>, pruned: seq<string>, colors: seq<Color>, guess: string)
    requires |colors| == |guess|
    requires DuplicateLetter(guess).None? ==> pruned == ws
    requires DuplicateLetter(guess).Some? ==> HandleDuplicateResult(ws, colors, guess, DuplicateLetter(guess).value) == Ok(pruned)
    ensures UpdateResult(ws, colors, guess) == Ok(Filter(pruned, BaseRule(guess, colors, DuplicateLetter(guess))))
  {
  }

  /** Once any colour is given, a successful update never keeps the guess itself. */
  lemma HelperGuessRemoved(ws: seq<string>, colors: seq<Color>, guess: string)
    requires 0 < |colors| == |guess|
    ensures UpdateResult(ws, colors, guess).Ok? ==> guess !in UpdateResult(ws, colors, guess).value
  {
    BaseKeepUpToMeaning(guess, guess, colors, DuplicateLetter(guess), |colors|);
  }

  class WordleHelper {
    /** The candidate words still consistent with the colours seen so far. */
    var wordList: seq<string>

    constructor (wordList: seq<string>)
      ensures this.wordList == wordList
    {
      this.wordList := wordList;
    }

    /** The score of `word`, or KeyError at the first letter without a weight. */
    method GetWordScore(word: string) returns (r: Result<nat>)
      ensures r.Ok? <==> Scorable(word)
      ensures r.Ok? ==> r.value == Score(word)
      ensures r.Err? ==> r.error == KeyError
    {
      SheetIsAlphabet();
      assert LettersOf(word[..0]) == {};
      EmptyWeight(Alphabet);
      var score := 0;
      var lettersSeen: set<char> := {};
      for i := 0 to |word|
        invariant lettersSeen == LettersOf(word[..i])
        invariant Scorable(word[..i])
        invariant score == Score(word[..i])
      {
        var letter := word[i];
        ScoreStep(word, i);
        if letter !in lettersSeen {
          if letter !in ScoreSheet {
            return Err(KeyError);
          }
          score := score + ScoreSheet[letter];
        }
        lettersSeen := lettersSeen + {letter};
      }
      assert word[..|word|] == word;
      return Ok(score);
    }

    /**
     * The first word of the list with the highest score: KeyError while scoring
     * a word with a letter without a weight, ValueError (`max` of nothing) on an
     * empty list.
     */
    function GetBestWord(): (r: Result<string>)
      reads this
      ensures (exists i :: 0 <= i < |wordList| && !Scorable(wordList[i])) ==> r == Err(KeyError)
      ensures wordList == [] ==> r == Err(ValueError)
      ensures r.Ok? <==> wordList != [] && forall i :: 0 <= i < |wordList| ==> Scorable(wordList[i])
      ensures r.Ok? ==> exists k :: 0 <= k < |wordList| && r.value == wordList[k] && IsFirstBest(wordList, k)
    {
      var words := wordList;
      if exists i :: 0 <= i < |words| && !Scorable(words[i]) then Err(KeyError)
      else if words == [] then Err(ValueError)
      else
        var wordScores := seq(|words|, i requires 0 <= i < |words| => Score(words[i]));
        var bestScore := Max(wordScores);
        var k := IndexOf(wordScores, bestScore);
        assert forall j :: 0 <= j < |words| ==> wordScores[j] == Score(words[j]);
        assert IsFirstBest(words, k);
        Ok(words[k])
    }

    /**
     * The letter whose second occurrence comes first in `word`, or None when
     * its letters are distinct. Declared without `self` in the source; modelled
     * as the static method it was evidently meant to be.
     */
    static method FindDuplicateLetter(word: string) returns (r: Option<char>)
      ensures r == DuplicateLetter(word)
    {
      var seen: set<char> := {};
      for i := 0 to |word|
        invariant seen == set k | 0 <= k < i :: word[k]
        invariant DuplicateLetter(word[..i]) == None
      {
        var letter := word[i];
        assert word[..i + 1][..i] == word[..i];
        if letter in seen {
          DuplicateLetterOfPrefix(word, i + 1);
          return Some(letter);
        }
        seen := seen + {letter};
      }
      assert word[..|word|] == word;
      return None;
    }

    /** The number of occurrences of `letter` in `word`. */
    method CountLetter(word: string, letter: char) returns (count: nat)
      ensures count == Count(word, letter)
      ensures count <= |word|
      ensures count > 0 <==> letter in word
    {
      count := 0;
      for i := 0 to |word|
        invariant count == Count(word[..i], letter)
      {
        assert word[..i + 1] == word[..i] + [word[i]];
        if word[i] == letter {
          count := count + 1;
        }
      }
      assert word[..|word|] == word;
      CountBounds(word, letter);
    }

    /** The first and last position of the letter `x`, which occurs at least twice in `guess`. */
    static method DuplicatePositions(guess: string, x: char) returns (indexA: int, indexB: int)
      requires OccursTwice(guess, x)
      ensures x in guess && indexA == FirstIndex(guess, x) && indexB == LastIndex(guess, x)
      ensures indexA < indexB
    {
      indexA, indexB := -1, -1;
      for i := 0 to |guess|
        invariant -1 <= indexA < i && -1 <= indexB < i
        invariant indexA == -1 ==> forall k :: 0 <= k < i ==> guess[k] != x
        invariant indexA >= 0 ==> guess[indexA] == x && forall k :: 0 <= k < indexA ==> guess[k] != x
        invariant indexB >= 0 ==> indexA < indexB && guess[indexB] == x && forall k :: indexB < k < i ==> guess[k] != x
        invariant indexA >= 0 && indexB == -1 ==> forall k :: indexA < k < i ==> guess[k] != x
      {
        if guess[i] == x {
          if indexA < 0 {
            indexA := i;
          } else {
            indexB := i;
          }
        }
      }
      FirstBeforeLast(guess, x);
    }

    /**
     * Whether the joint rule at positions `indexA` and `indexB` deletes `w`;
     * TypeError when the colour at `indexA` is black, where the source indexes
     * the guess by the candidate word.
     */
    method FailsJointRule(w: string, guess: string, colors: seq<Color>, indexA: nat, indexB: nat) returns (r: Result<bool>)
      requires indexA < |guess| && indexB < |guess| && |colors| == |guess| && |w| == |guess|
      ensures colors[indexA] == B ==> r == Err(TypeError)
      ensures colors[indexA] != B ==> r == Ok(!HelperDuplicateKeep(w, guess, colors, indexA, indexB))
    {
      var remove := false;
      if colors[indexA] == G {
        if w[indexA] != guess[indexA] {
          remove := true;
        }
        if colors[indexB] == G {
          if w[indexB] != guess[indexB] {
            remove := true;
          }
        }
        if colors[indexB] == Y {
          var n := CountLetter(w, guess[indexB]);
          if n < 2 || guess[indexB] == w[indexB] {
            remove := true;
          }
        }
        if colors[indexB] == B {
          var n := CountLetter(w, guess[indexB]);
          if n > 1 {
            remove := true;
          }
        }
      }
      if colors[indexA] == Y {
        if guess[indexA] == w[indexA] {
          remove := true;
        }
        if colors[indexB] == G {
          var n := CountLetter(w, guess[indexA]);
          if w[indexB] != guess[indexB] || n < 2 {
            remove := true;
          }
        }
        if colors[indexB] == Y {
          var n := CountLetter(w, guess[indexA]);
          if guess[indexB] == w[indexB] || n < 2 {
            remove := true;
          }
        }
        if colors[indexB] == B {
          var n := CountLetter(w, guess[indexA]);
          if n > 1 || guess[indexB] == w[indexB] {
            remove := true;
          }
        }
      }
      if colors[indexA] == B {
        return Err(TypeError);
      }
      return Ok(remove);
    }

    /**
     * Finds the first and last position of `x` in `guess` and replaces the
     * candidate list with the words the joint rule keeps; on TypeError the list
     * is left as it was.
     */
    method HandleDuplicate(guess: string, colors: seq<Color>, x: char) returns (outcome: Outcome)
      requires |colors| == |guess| && OccursTwice(guess, x)
      requires forall w :: w in wordList ==> |w| == |guess|
      modifies this
      ensures x in guess
      ensures var res := HandleDuplicateResult(old(wordList), colors, guess, x);
        && (res.Ok? ==> outcome == Pass && wordList == res.value)
        && (res.Err? ==> outcome == Fail(res.error) && wordList == old(wordList))
    {
      var indexA, indexB := DuplicatePositions(guess, x);
      ghost var ws := wordList;
      var indicesToDelete: set<nat> := {};
      for j := 0 to |wordList|
        invariant wordList == ws
        invariant colors[indexA] == B ==> j == 0
        invariant colors[indexA] != B ==>
          forall k :: k in indicesToDelete <==> 0 <= k < j && !HelperDuplicateKeep(ws[k], guess, colors, indexA, indexB)
      {
        var r := FailsJointRule(wordList[j], guess, colors, indexA, indexB);
        if r.Err? {
          return Fail(r.error);
        }
        if r.value {
          indicesToDelete := indicesToDelete + {j};
        }
      }
      if colors[indexA] != B {
        WithoutFlagged(ws, indicesToDelete, HelperDuplicateRule(guess, colors, indexA, indexB));
      }
      wordList := Without(wordList, indicesToDelete);
      return Pass;
    }

    /**
     * Replaces the candidate list with the words consistent with `guess` and
     * its `colors`: the duplicate letter's joint rule first, then the base pass
     * over the list that rule left. An error leaves the list as it was.
     */
    method UpdateWordList(guess: string, colors: seq<Color>) returns (outcome: Outcome)
      requires |colors| == |guess|
      requires forall w :: w in wordList ==> |w| == |guess|
      modifies this
      ensures var res := UpdateResult(old(wordList), colors, guess);
        && (res.Ok? ==> outcome == Pass && wordList == res.value)
        && (res.Err? ==> outcome == Fail(res.error) && wordList == old(wordList))
    {
      var duplicateLetter := FindDuplicateLetter(guess);
      if duplicateLetter.Some? {
        DuplicateLetterOccursTwice(guess);
        outcome := HandleDuplicate(guess, colors, duplicateLetter.value);
        if outcome.Fail? {
          return;
        }
      }
      ghost var ws := wordList;
      var indicesToDelete: set<nat> := {};
      for i := 0 to |colors|
        invariant wordList == ws
        invariant forall k :: k in indicesToDelete <==> 0 <= k < |ws| && !BaseKeepUpTo(ws[k], guess, colors, duplicateLetter, i)
      {
        for j := 0 to |wordList|
          invariant wordList == ws
          invariant forall k :: k in indicesToDelete <==>
            0 <= k < |ws| && (!BaseKeepUpTo(ws[k], guess, colors, duplicateLetter, i)
                              || (k < j && !BaseKeepUpTo(ws[k], guess, colors, duplicateLetter, i + 1)))
        {
          var remove := FailsBaseRound(wordList[j], guess, colors, duplicateLetter, i);
          if remove {
            indicesToDelete := indicesToDelete + {j};
          }
        }
      }
      UpdateAfterPruning(old(wordList), ws, colors, guess);
      WithoutFlagged(ws, indicesToDelete, BaseRule(guess, colors, duplicateLetter));
      wordList := Without(wordList, indicesToDelete);
      return Pass;
    }

    /** Updates the candidate list, then suggests its best word. */
    method NextBestWord(guess: string, colors: seq<Color>) returns (r: Result<string>)
      requires |colors| == |guess|
      requires forall w :: w in wordList ==> |w| == |guess|
      modifies this
      ensures var res := UpdateResult(old(wordList), colors, guess);
        && (res.Ok? ==> wordList == res.value && r == GetBestWord())
        && (res.Err? ==> r == Err(res.error) && wordList == old(wordList))
    {
      var outcome := UpdateWordList(guess, colors);
      if outcome.Fail? {
        return Err(outcome.error);
      }
      r := GetBestWord();
    }
  }
}
