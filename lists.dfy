/** Order-preserving selection from sequences, and the mutable list object. */
module Lists {

  /** A Python list object that functions receive by reference and mutate in place. */
  class WordList {
    var words: seq<string>

    constructor (words: seq<string>)
      ensures this.words == words
    {
      this.words := words;
    }
  }

  /** `r` consists of the elements of `s` at the strictly increasing positions `pos`. */
  ghost predicate Embeds<T>(r: seq<T>, s: seq<T>, pos: seq<int>)
  {
    && |pos| == |r|
    && (forall k :: 0 <= k < |pos| ==> 0 <= pos[k] < |s| && r[k] == s[pos[k]])
    && (forall k, l :: 0 <= k < l < |pos| ==> pos[k] < pos[l])
  }

  /** `r` is `s` with some elements dropped and the rest in their original order. */
  ghost predicate IsSubsequence<T>(r: seq<T>, s: seq<T>)
  {
    exists pos :: Embeds(r, s, pos)
  }

  /** An embedding extends by a last element both sequences gain. */
  lemma EmbedsExtend<T>(r: seq<T>, s: seq<T>, pos: seq<int>, x: T)
    requires Embeds(r, s, pos)
    ensures Embeds(r + [x], s + [x], pos + [|s|])
  {
    var r', s', pos' := r + [x], s + [x], pos + [|s|];
    assert forall k :: 0 <= k < |pos| ==> pos'[k] == pos[k] && r'[k] == r[k] && s'[pos[k]] == s[pos[k]];
  }

  /** An embedding survives the sequence gaining a last element. */
  lemma EmbedsWeaken<T>(r: seq<T>, s: seq<T>, pos: seq<int>, x: T)
    requires Embeds(r, s, pos)
    ensures Embeds(r, s + [x], pos)
  {
    assert forall k :: 0 <= k < |pos| ==> (s + [x])[pos[k]] == s[pos[k]];
  }

  /** A subsequence grows by an element the sequence grows by. */
  lemma SubsequenceExtend<T>(r: seq<T>, s: seq<T>, x: T)
    requires IsSubsequence(r, s)
    ensures IsSubsequence(r + [x], s + [x])
  {
    var pos :| Embeds(r, s, pos);
    EmbedsExtend(r, s, pos, x);
  }

  /** A subsequence stays one when the sequence grows. */
  lemma SubsequenceWeaken<T>(r: seq<T>, s: seq<T>, x: T)
    requires IsSubsequence(r, s)
    ensures IsSubsequence(r, s + [x])
  {
    var pos :| Embeds(r, s, pos);
    EmbedsWeaken(r, s, pos, x);
  }

  /** The elements of `s` that satisfy `keep`, in their original order. */
  function Filter<T(!new)>(s: seq<T>, keep: T -> bool): (r: seq<T>)
    ensures |r| <= |s|
    ensures forall x :: x in r <==> x in s && keep(x)
  {
    if s == [] then []
    else
      assert s == s[..|s| - 1] + [s[|s| - 1]];
      Filter(s[..|s| - 1], keep) + (if keep(s[|s| - 1]) then [s[|s| - 1]] else [])
  }

  /** `s` with the positions in `gone` removed; the remaining elements keep their order. */
  function Without<T>(s: seq<T>, gone: set<nat>): (r: seq<T>)
    ensures |r| <= |s|
  {
    if s == [] then []
    else Without(s[..|s| - 1], gone) + (if |s| - 1 in gone then [] else [s[|s| - 1]])
  }

  /** The positions below `n` that are not in `gone`, in increasing order. */
  function Kept(n: nat, gone: set<nat>): (pos: seq<int>)
    ensures forall j :: j in pos <==> 0 <= j < n && j !in gone
    ensures forall k, l :: 0 <= k < l < |pos| ==> pos[k] < pos[l]
    ensures forall k :: 0 <= k < |pos| ==> 0 <= pos[k] < n
  {
    if n == 0 then []
    else Kept(n - 1, gone) + (if n - 1 in gone then [] else [n - 1])
  }

  /** Removing positions leaves exactly the elements at the other positions, in order. */
  lemma {:induction false} WithoutEmbeds<T>(s: seq<T>, gone: set<nat>)
    ensures Embeds(Without(s, gone), s, Kept(|s|, gone))
  {
    if s != [] {
      var n := |s| - 1;
      WithoutEmbeds(s[..n], gone);
      var r, pos := Without(s[..n], gone), Kept(n, gone);
      assert s == s[..n] + [s[n]];
      if n !in gone {
        EmbedsExtend(r, s[..n], pos, s[n]);
      } else {
        EmbedsWeaken(r, s[..n], pos, s[n]);
      }
    }
  }

  /** Removing positions gives a subsequence. */
  lemma WithoutIsSubsequence<T>(s: seq<T>, gone: set<nat>)
    ensures IsSubsequence(Without(s, gone), s)
  {
    WithoutEmbeds(s, gone);
  }

  /** Removing no position changes nothing. */
  lemma {:induction false} WithoutNothing<T>(s: seq<T>)
    ensures Without(s, {}) == s
  {
    if s != [] {
      WithoutNothing(s[..|s| - 1]);
      assert s == s[..|s| - 1] + [s[|s| - 1]];
    }
  }

  /** Only the positions inside `s` matter to `Without`. */
  lemma {:induction false} WithoutSameGone<T>(s: seq<T>, g1: set<nat>, g2: set<nat>)
    requires forall j :: 0 <= j < |s| ==> (j in g1 <==> j in g2)
    ensures Without(s, g1) == Without(s, g2)
  {
    if s != [] {
      WithoutSameGone(s[..|s| - 1], g1, g2);
    }
  }

  /** Removing `k` in-range positions shortens the sequence by exactly `k`. */
  lemma {:induction false} WithoutLength<T>(s: seq<T>, gone: set<nat>)
    requires forall j :: j in gone ==> j < |s|
    ensures |Without(s, gone)| == |s| - |gone|
  {
    if s != [] {
      var n := |s| - 1;
      var rest := gone - {n};
      WithoutSameGone(s[..n], gone, rest);
      WithoutLength(s[..n], rest);
      if n in gone {
        assert gone == rest + {n};
      } else {
        assert gone == rest;
      }
    }
  }

  /** Removing one position leaves what is before and after it. */
  lemma {:induction false} WithoutOne<T>(s: seq<T>, k: nat)
    requires k < |s|
    ensures Without(s, {k}) == s[..k] + s[k + 1..]
  {
    var n := |s| - 1;
    if k == n {
      WithoutSameGone(s[..n], {k}, {});
      WithoutNothing(s[..n]);
    } else {
      WithoutOne(s[..n], k);
      assert s[..n][..k] == s[..k];
      assert s[..n][k + 1..] + [s[n]] == s[k + 1..];
    }
  }

  /** Removing an element just inserted at `k` gives back the sequence. */
  lemma InsertedThenRemoved<T>(s: seq<T>, k: nat, x: T)
    requires k <= |s|
    ensures (s[..k] + [x] + s[k..])[k] == x
    ensures Without(s[..k] + [x] + s[k..], {k}) == s
  {
    var r := s[..k] + [x] + s[k..];
    WithoutOne(r, k);
    assert r[..k] == s[..k];
    assert r[k + 1..] == s[k..];
    assert s == s[..k] + s[k..];
  }

  /** Extending a prefix by one element extends its remainder by that element unless its position is removed. */
  lemma WithoutStep<T>(s: seq<T>, gone: set<nat>, i: nat)
    requires i < |s|
    ensures Without(s[..i + 1], gone) == Without(s[..i], gone) + (if i in gone then [] else [s[i]])
  {
    assert s[..i + 1][..i] == s[..i];
  }

  /** Deleting the element right after a prefix `r` of `r + s[i..]` leaves `r + s[i + 1..]`. */
  lemma DropAfter<T>(r: seq<T>, s: seq<T>, i: nat)
    requires i < |s|
    ensures (r + s[i..])[..|r|] + (r + s[i..])[|r| + 1..] == r + s[i + 1..]
    ensures r + s[i..] == (r + [s[i]]) + s[i + 1..]
  {
    assert (r + s[i..])[..|r|] == r;
    assert (r + s[i..])[|r| + 1..] == s[i + 1..];
  }

  /** When every removed position lies before `p`, the suffix from `p` survives untouched. */
  lemma {:induction false} WithoutPrefix<T>(s: seq<T>, gone: set<nat>, p: nat)
    requires p <= |s|
    requires forall j :: j in gone ==> j < p
    ensures Without(s, gone) == Without(s[..p], gone) + s[p..]
    decreases |s|
  {
    if |s| > p {
      var n := |s| - 1;
      WithoutPrefix(s[..n], gone, p);
      assert s[..n][..p] == s[..p];
      assert s[..n][p..] + [s[n]] == s[p..];
    } else {
      assert s[..p] == s;
    }
  }

  /** The elements of `q` are strictly increasing. */
  predicate Increasing(q: seq<nat>)
  {
    forall k, l :: 0 <= k < l < |q| ==> q[k] < q[l]
  }

  /** The set of elements of `q`. */
  function Positions(q: seq<nat>): (r: set<nat>)
    ensures forall j :: j in r <==> j in q
  {
    set j | j in q
  }

  /** A strictly increasing sequence has as many distinct elements as its length. */
  lemma {:induction false} IncreasingCount(q: seq<nat>, k: nat)
    requires Increasing(q) && k <= |q|
    ensures |Positions(q[..k])| == k
  {
    if k > 0 {
      IncreasingCount(q, k - 1);
      IncreasingCountStep(q, k);
    } else {
      assert Positions(q[..0]) == {};
    }
  }

  /** One more element of a strictly increasing sequence is one more distinct position. */
  lemma IncreasingCountStep(q: seq<nat>, k: nat)
    requires Increasing(q) && 0 < k <= |q|
    ensures |Positions(q[..k])| == |Positions(q[..k - 1])| + 1
  {
    var before, x := q[..k - 1], q[k - 1];
    assert forall i :: 0 <= i < |before| ==> before[i] < x;
    assert x !in Positions(before);
    assert q[..k] == before + [x];
    assert Positions(q[..k]) == Positions(before) + {x};
    AddFresh(Positions(before), x);
  }

  /** Adding an element not yet in a set makes it one larger. */
  lemma AddFresh(a: set<nat>, x: nat)
    requires x !in a
    ensures |a + {x}| == |a| + 1
  {
    assert a * {x} == {};
  }

  /**
   * Along a strictly increasing sequence, the first `k` elements are `k`
   * distinct positions, all below the next one, which adds one more.
   */
  lemma IncreasingStep(q: seq<nat>, k: nat)
    requires Increasing(q) && k < |q|
    ensures |Positions(q[..k])| == k
    ensures forall j :: j in Positions(q[..k]) ==> j < q[k]
    ensures Positions(q[..k + 1]) == Positions(q[..k]) + {q[k]}
  {
    IncreasingCount(q, k);
    assert q[..k + 1] == q[..k] + [q[k]];
  }

  /** Dropping the first element keeps a sequence increasing, and that element lies below the rest. */
  lemma IncreasingTail(q: seq<nat>)
    requires Increasing(q) && q != []
    ensures Increasing(q[1..])
    ensures forall i :: 0 <= i < |q[1..]| ==> q[0] < q[1..][i]
    ensures Positions(q) == {q[0]} + Positions(q[1..])
  {
    assert q == [q[0]] + q[1..];
  }

  /**
   * With the positions `gone`, all before `p`, already removed, the element
   * that was at `p` now sits at `p - |gone|`, and deleting it there removes `p`
   * as well.
   */
  lemma DeleteNext<T>(s: seq<T>, gone: set<nat>, p: nat)
    requires p < |s|
    requires forall j :: j in gone ==> j < p
    ensures |gone| <= p < |Without(s, gone)| + |gone|
    ensures Without(s, gone)[..p - |gone|] + Without(s, gone)[p - |gone| + 1..] == Without(s, gone + {p})
  {
    var r := Without(s[..p], gone);
    WithoutPrefix(s, gone, p);
    WithoutLength(s[..p], gone);
    DropAfter(r, s, p);
    WithoutPrefix(s, gone + {p}, p + 1);
    WithoutStep(s, gone + {p}, p);
    WithoutSameGone(s[..p], gone + {p}, gone);
  }

  /** Removing the positions whose element fails `keep` is the same as filtering by `keep`. */
  lemma {:induction false} WithoutFlagged<T(!new)>(s: seq<T>, gone: set<nat>, keep: T -> bool)
    requires forall j :: 0 <= j < |s| ==> (j in gone <==> !keep(s[j]))
    ensures Without(s, gone) == Filter(s, keep)
  {
    if s != [] {
      WithoutFlagged(s[..|s| - 1], gone, keep);
    }
  }

  /** A filter keeps the survivors in their original relative order. */
  lemma FilterIsSubsequence<T(!new)>(s: seq<T>, keep: T -> bool)
    ensures IsSubsequence(Filter(s, keep), s)
  {
    var gone := set j: nat | j < |s| && !keep(s[j]);
    WithoutFlagged(s, gone, keep);
    WithoutIsSubsequence(s, gone);
  }

  /** The condition that both `p` and `q` hold. */
  function Both<T>(p: T -> bool, q: T -> bool): T -> bool
  {
    x => p(x) && q(x)
  }

  /** Filtering twice is filtering once by both conditions. */
  lemma {:induction false} FilterFilter<T(!new)>(s: seq<T>, p: T -> bool, q: T -> bool)
    ensures Filter(Filter(s, p), q) == Filter(s, Both(p, q))
  {
    if s != [] {
      var n := |s| - 1;
      FilterFilter(s[..n], p, q);
      var head := Filter(s[..n], p);
      if p(s[n]) {
        assert Filter(s, p)[..|Filter(s, p)| - 1] == head;
      } else {
        assert Filter(s, p) == head;
      }
    }
  }

  /** Filters by conditions that agree on every element give the same result. */
  lemma {:induction false} FilterSameKeep<T(!new)>(s: seq<T>, p: T -> bool, q: T -> bool)
    requires forall x :: x in s ==> p(x) == q(x)
    ensures Filter(s, p) == Filter(s, q)
  {
    if s != [] {
      assert s == s[..|s| - 1] + [s[|s| - 1]];
      FilterSameKeep(s[..|s| - 1], p, q);
    }
  }
}
