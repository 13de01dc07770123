/**
 * Per-letter feedback colours and the single-position survival rules that
 * both copies of the elimination engine apply to the letters of a guess.
 */
module Feedback {
  import opened Outcomes
  import opened Letters

  /**
   * The colour reported for one letter of a guess: green (right letter, right
   * place), yellow (in the word, elsewhere), black (not in the word). Any
   * other character the user types is `Other` and constrains nothing.
   */
  datatype Color = G | Y | B | Other

  /** `w` has the letter `x` at position `i`. */
  predicate HasAt(w: string, i: nat, x: char)
  {
    i < |w| && w[i] == x
  }

  /** The rule the colour at position `i` of `guess` imposes on a candidate `c`. */
  predicate PositionKeep(c: string, guess: string, color: Color, i: nat)
    requires i < |guess|
  {
    match color
    case G => HasAt(c, i, guess[i])
    case Y => guess[i] in c && !HasAt(c, i, guess[i])
    case B => guess[i] !in c
    case Other => true
  }

  /**
   * A candidate survives the first `n` rounds of the base pass: each round
   * removes the guess itself, and applies the position's colour rule unless the
   * position holds the duplicate letter `dup`.
   */
  predicate BaseKeepUpTo(c: string, guess: string, colors: seq<Color>, dup: Option<char>, n: nat)
    requires n <= |colors| <= |guess|
  {
    if n == 0 then true
    else
      && BaseKeepUpTo(c, guess, colors, dup, n - 1)
      && c != guess
      && (dup == Some(guess[n - 1]) || PositionKeep(c, guess, colors[n - 1], n - 1))
  }

  /** A candidate survives the whole base pass. */
  predicate BaseKeep(c: string, guess: string, colors: seq<Color>, dup: Option<char>)
    requires |colors| == |guess|
  {
    BaseKeepUpTo(c, guess, colors, dup, |colors|)
  }

  /**
   * One round of the base pass for one candidate: it is deleted when it is the
   * guess, or when position `i` does not hold the duplicate letter and the
   * candidate breaks that position's colour rule.
   */
  method FailsBaseRound(w: string, guess: string, colors: seq<Color>, dup: Option<char>, i: nat) returns (remove: bool)
    requires i < |colors| == |guess| && |w| == |guess|
    ensures remove <==> !(w != guess && (dup == Some(guess[i]) || PositionKeep(w, guess, colors[i], i)))
  {
    remove := false;
    if w == guess {
      remove := true;
    }
    if dup != Some(guess[i]) {
      if colors[i] == G && w[i] != guess[i] {
        remove := true;
      } else if colors[i] == Y && (guess[i] !in w || guess[i] == w[i]) {
        remove := true;
      } else if colors[i] == B && guess[i] in w {
        remove := true;
      }
    }
  }

  /** The base pass as a condition on candidates. */
  function BaseRule(guess: string, colors: seq<Color>, dup: Option<char>): string -> bool
    requires |colors| == |guess|
  {
    c => BaseKeep(c, guess, colors, dup)
  }

  /**
   * The base pass keeps a candidate exactly when it is not the guess (once
   * there is at least one colour) and it meets the rule of every position that
   * does not hold the duplicate letter.
   */
  lemma {:induction false} BaseKeepUpToMeaning(c: string, guess: string, colors: seq<Color>, dup: Option<char>, n: nat)
    requires n <= |colors| <= |guess|
    ensures BaseKeepUpTo(c, guess, colors, dup, n) <==>
              && (n > 0 ==> c != guess)
              && forall i :: 0 <= i < n && dup != Some(guess[i]) ==> PositionKeep(c, guess, colors[i], i)
  {
    if n > 0 {
      BaseKeepUpToMeaning(c, guess, colors, dup, n - 1);
    }
  }

  /** The base pass over all positions, stated rule by rule. */
  lemma BaseKeepMeaning(c: string, guess: string, colors: seq<Color>, dup: Option<char>)
    requires |colors| == |guess|
    ensures BaseKeep(c, guess, colors, dup) <==>
              && (|colors| > 0 ==> c != guess)
              && (forall i :: 0 <= i < |colors| && dup != Some(guess[i]) && colors[i] == G ==> HasAt(c, i, guess[i]))
              && (forall i :: 0 <= i < |colors| && dup != Some(guess[i]) && colors[i] == Y ==> guess[i] in c && !HasAt(c, i, guess[i]))
              && (forall i :: 0 <= i < |colors| && dup != Some(guess[i]) && colors[i] == B ==> guess[i] !in c)
  {
    BaseKeepUpToMeaning(c, guess, colors, dup, |colors|);
  }

  /** How many of the two colours say the letter is in the word (green or yellow). */
  function Marked(x: Color, y: Color): nat
  {
    (if x == G || x == Y then 1 else 0) + (if y == G || y == Y then 1 else 0)
  }

  /**
   * The count-based rule for a letter guessed at positions `a` and `b`: a green
   * position must hold the letter, a yellow one must not, and the candidate
   * holds exactly as many copies as there are green and yellow colours when
   * one of the two is black, and at least that many otherwise.
   */
  predicate CountRule(c: string, guess: string, colors: seq<Color>, a: nat, b: nat)
    requires a < b < |guess| == |colors|
  {
    var x := guess[a];
    var need := Marked(colors[a], colors[b]);
    && (colors[a] == G ==> HasAt(c, a, x))
    && (colors[a] == Y ==> !HasAt(c, a, x))
    && (colors[b] == G ==> HasAt(c, b, x))
    && (colors[b] == Y ==> !HasAt(c, b, x))
    && (if colors[a] == B || colors[b] == B then Count(c, x) == need else Count(c, x) >= need)
  }
}
