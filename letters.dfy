/** Letter counting and repeated-letter positions in a word. */
module Letters {
  import opened Outcomes

  /** The number of occurrences of `x` in `w`. */
  function Count(w: string, x: char): nat
  {
    multiset(w)[x]
  }

  /** A letter occurs at most once per position, and at least once exactly when it occurs. */
  lemma {:induction false} CountBounds(w: string, x: char)
    ensures Count(w, x) <= |w|
    ensures Count(w, x) > 0 <==> x in w
  {
    if w != [] {
      var n := |w| - 1;
      assert w == w[..n] + [w[n]];
      CountBounds(w[..n], x);
    }
  }

  /** Two distinct positions holding `x` make at least two copies of it. */
  lemma CountTwoPositions(w: string, x: char, i: nat, j: nat)
    requires i < j < |w| && w[i] == x && w[j] == x
    ensures Count(w, x) >= 2
  {
    assert w == w[..j] + w[j..];
    assert w[..j][i] == x;
    assert w[j..][0] == x;
  }

  /** No letter of `w` occurs twice. */
  predicate AllDistinct(w: string)
  {
    forall i, j :: 0 <= i < j < |w| ==> w[i] != w[j]
  }

  /** `x` occurs at two different positions of `w`. */
  predicate OccursTwice(w: string, x: char)
  {
    exists i, j :: 0 <= i < j < |w| && w[i] == x && w[j] == x
  }

  /**
   * The repeated letter whose second occurrence comes first in `w`,
   * or None when all letters of `w` are distinct.
   */
  function DuplicateLetter(w: string): (r: Option<char>)
    ensures r.None? <==> AllDistinct(w)
    ensures r.Some? ==> exists j :: 0 < j < |w| && w[j] == r.value && r.value in w[..j] && AllDistinct(w[..j])
  {
    if w == [] then None
    else
      var n := |w| - 1;
      var earlier := DuplicateLetter(w[..n]);
      if earlier.Some? then
        assert forall j :: 0 <= j <= n ==> w[..n][..j] == w[..j];
        earlier
      else if w[n] in w[..n] then
        Some(w[n])
      else
        assert forall i :: 0 <= i < n ==> w[i] != w[n];
        None
  }

  /** The letter DuplicateLetter reports does occur twice. */
  lemma DuplicateLetterOccursTwice(w: string)
    requires DuplicateLetter(w).Some?
    ensures OccursTwice(w, DuplicateLetter(w).value)
  {
    var x := DuplicateLetter(w).value;
    var j :| 0 < j < |w| && w[j] == x && x in w[..j] && AllDistinct(w[..j]);
    var i :| 0 <= i < j && w[..j][i] == x;
    assert w[i] == x && w[j] == x;
  }

  /** Appending a letter to a word that already has a duplicate letter keeps that letter. */
  lemma DuplicateLetterStep(w: string)
    requires w != [] && DuplicateLetter(w[..|w| - 1]).Some?
    ensures DuplicateLetter(w) == DuplicateLetter(w[..|w| - 1])
  {
  }

  /** Once a prefix of `w` has a duplicate letter, `w` reports the same one. */
  lemma {:induction false} DuplicateLetterOfPrefix(w: string, n: nat)
    requires n <= |w| && DuplicateLetter(w[..n]).Some?
    ensures DuplicateLetter(w) == DuplicateLetter(w[..n])
    decreases |w| - n
  {
    if n < |w| {
      var m := |w| - 1;
      assert w[..m][..n] == w[..n];
      DuplicateLetterOfPrefix(w[..m], n);
      DuplicateLetterStep(w);
    } else {
      assert w[..n] == w;
    }
  }

  /** The position of the first occurrence of `x` in `w`. */
  function FirstIndex(w: string, x: char): (k: nat)
    requires x in w
    ensures k < |w| && w[k] == x
    ensures forall j :: 0 <= j < k ==> w[j] != x
  {
    if w[0] == x then 0
    else
      assert x in w[1..] by {
        var i :| 0 <= i < |w| && w[i] == x;
        assert w[1..][i - 1] == x;
      }
      1 + FirstIndex(w[1..], x)
  }

  /** The position of the last occurrence of `x` in `w`. */
  function LastIndex(w: string, x: char): (k: nat)
    requires x in w
    ensures k < |w| && w[k] == x
    ensures forall j :: k < j < |w| ==> w[j] != x
  {
    var n := |w| - 1;
    if w[n] == x then n
    else
      assert x in w[..n] by {
        var i :| 0 <= i < |w| && w[i] == x;
        assert w[..n][i] == x;
      }
      LastIndex(w[..n], x)
  }

  /** For a letter occurring twice, its first occurrence comes strictly before its last. */
  lemma FirstBeforeLast(w: string, x: char)
    requires OccursTwice(w, x)
    ensures x in w && FirstIndex(w, x) < LastIndex(w, x)
  {
    var i, j :| 0 <= i < j < |w| && w[i] == x && w[j] == x;
  }
}
