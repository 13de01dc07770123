/**
 * The letter-frequency score of a word: the sum of the weights of its
 * distinct letters. Weights are kept in exact hundredths.
 */
module Scoring {
  import opened Letters

  /** Per-letter frequency weights, in hundredths (56.88 is 5688). */
  const ScoreSheet: map<char, nat> := map[
    'e' := 5688, 'a' := 4331, 'r' := 3864, 'i' := 3845,
    'o' := 3651, 't' := 3543, 'n' := 3392, 's' := 2923,
    'l' := 2798, 'c' := 2313, 'u' := 1851, 'd' := 1725,
    'p' := 1614, 'm' := 1536, 'h' := 1531, 'g' := 1259,
    'b' := 1056, 'f' := 924, 'y' := 906, 'w' := 657,
    'k' := 561, 'v' := 513, 'x' := 148, 'z' := 139,
    'j' := 100, 'q' := 100
  ]

  /** The letters of the score sheet, each once. */
  const Alphabet: string := "abcdefghijklmnopqrstuvwxyz"

  /** The score sheet has a weight for exactly the letters of the alphabet, each listed once. */
  lemma SheetIsAlphabet()
    ensures AllDistinct(Alphabet)
    ensures forall c :: c in ScoreSheet <==> c in Alphabet
  {
    AlphabetDistinct();
  }

  /** No letter is listed twice in the alphabet: its letters increase strictly. */
  lemma AlphabetDistinct()
    ensures AllDistinct(Alphabet)
  {
    IncreasingIsDistinct(Alphabet);
  }

  /** A string whose neighbouring letters increase has no repeated letter. */
  lemma IncreasingIsDistinct(s: string)
    requires forall i :: 0 <= i < |s| - 1 ==> s[i] < s[i + 1]
    ensures AllDistinct(s)
  {
    forall i, j | 0 <= i < j < |s|
      ensures s[i] < s[j]
    {
      var k := i;
      while k < j
        invariant i <= k <= j && s[i] <= s[k]
        invariant k > i ==> s[i] < s[k]
      {
        k := k + 1;
      }
    }
  }

  /** Every letter of `w` has a weight (otherwise looking it up raises KeyError). */
  predicate Scorable(w: string)
  {
    forall i :: 0 <= i < |w| ==> w[i] in ScoreSheet
  }

  /** The set of distinct letters of `w`. */
  function LettersOf(w: string): set<char>
  {
    set i | 0 <= i < |w| :: w[i]
  }

  /** The total weight of those letters of `letters` that are in `seen`. */
  function Weight(seen: set<char>, letters: string): nat
    requires forall i :: 0 <= i < |letters| ==> letters[i] in ScoreSheet
  {
    if letters == [] then 0
    else
      var n := |letters| - 1;
      Weight(seen, letters[..n]) + (if letters[n] in seen then ScoreSheet[letters[n]] else 0)
  }

  /** The score of `w`: each alphabet letter occurring in `w` adds its weight once. */
  function Score(w: string): nat
  {
    SheetIsAlphabet();
    Weight(LettersOf(w), Alphabet)
  }

  /** Marking one more letter as seen adds its weight once if it is among `letters`. */
  lemma {:induction false} WeightAdd(seen: set<char>, letters: string, c: char)
    requires forall i :: 0 <= i < |letters| ==> letters[i] in ScoreSheet
    requires AllDistinct(letters)
    requires c !in seen
    ensures Weight(seen + {c}, letters) == Weight(seen, letters) + (if c in letters then ScoreSheet[c] else 0)
  {
    if letters != [] {
      var n := |letters| - 1;
      assert letters == letters[..n] + [letters[n]];
      WeightAdd(seen, letters[..n], c);
    }
  }

  /** Appending a letter adds its weight if it is new and has a weight, and nothing otherwise. */
  lemma ScoreAppend(w: string, c: char)
    ensures Score(w + [c]) == Score(w) + (if c in w || c !in ScoreSheet then 0 else ScoreSheet[c])
  {
    SheetIsAlphabet();
    assert LettersOf(w + [c]) == LettersOf(w) + {c} by {
      assert forall i :: 0 <= i < |w| ==> (w + [c])[i] == w[i];
      assert (w + [c])[|w|] == c;
    }
    if c in LettersOf(w) {
      assert LettersOf(w) + {c} == LettersOf(w);
    } else {
      WeightAdd(LettersOf(w), Alphabet, c);
    }
  }

  /** One step of a left-to-right scan of `w` that remembers the letters seen so far. */
  lemma ScoreStep(w: string, i: nat)
    requires i < |w|
    ensures LettersOf(w[..i + 1]) == LettersOf(w[..i]) + {w[i]}
    ensures Scorable(w[..i]) && w[i] in ScoreSheet ==> Scorable(w[..i + 1])
    ensures Score(w[..i + 1]) == Score(w[..i]) + (if w[i] in LettersOf(w[..i]) || w[i] !in ScoreSheet then 0 else ScoreSheet[w[i]])
  {
    assert w[..i + 1] == w[..i] + [w[i]];
    ScoreAppend(w[..i], w[i]);
    assert w[i] in w[..i] <==> w[i] in LettersOf(w[..i]);
  }

  /** The score depends only on which letters occur: rearranging or repeating letters leaves it unchanged. */
  lemma ScoreOfSameLetters(w1: string, w2: string)
    requires forall c :: c in w1 <==> c in w2
    ensures Score(w1) == Score(w2)
  {
    assert LettersOf(w1) == LettersOf(w2) by {
      forall c ensures c in LettersOf(w1) <==> c in LettersOf(w2) {
        if c in w1 {
          var i :| 0 <= i < |w1| && w1[i] == c;
        }
        if c in w2 {
          var i :| 0 <= i < |w2| && w2[i] == c;
        }
      }
    }
  }

  /** The plain sum of the weights of all letters of `w`, repeats included. */
  function SumOfWeights(w: string): nat
    requires Scorable(w)
  {
    if w == [] then 0 else SumOfWeights(w[..|w| - 1]) + ScoreSheet[w[|w| - 1]]
  }

  /** A word without repeated letters scores the plain sum of its letters' weights. */
  lemma {:induction false} ScoreOfDistinct(w: string)
    requires Scorable(w) && AllDistinct(w)
    ensures Score(w) == SumOfWeights(w)
  {
    if w != [] {
      var n := |w| - 1;
      assert w == w[..n] + [w[n]];
      ScoreOfDistinct(w[..n]);
      ScoreAppend(w[..n], w[n]);
    } else {
      assert LettersOf(w) == {};
      EmptyWeight(Alphabet);
    }
  }

  /** No letter seen, no weight. */
  lemma {:induction false} EmptyWeight(letters: string)
    requires forall i :: 0 <= i < |letters| ==> letters[i] in ScoreSheet
    ensures Weight({}, letters) == 0
  {
    if letters != [] {
      EmptyWeight(letters[..|letters| - 1]);
    }
  }

  /** `words[k]` has the highest score in `words`, and no earlier word reaches it. */
  predicate IsFirstBest(words: seq<string>, k: nat)
    requires k < |words|
  {
    && (forall j :: 0 <= j < |words| ==> Score(words[j]) <= Score(words[k]))
    && (forall j :: 0 <= j < k ==> Score(words[j]) < Score(words[k]))
  }

  /** A list has at most one first best word. */
  lemma FirstBestUnique(words: seq<string>, k1: nat, k2: nat)
    requires k1 < |words| && k2 < |words|
    requires IsFirstBest(words, k1) && IsFirstBest(words, k2)
    ensures k1 == k2
  {
    assert Score(words[k2]) <= Score(words[k1]) && Score(words[k1]) <= Score(words[k2]);
  }
}
