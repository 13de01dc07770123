/**
 * The word-list maintenance utility: inserting words into an alphabetically
 * sorted list in place, refusing a word the scan finds already there.
 */
module InsertWords {
  import opened Lists

  /**
   * Python's `<` on strings: code point by code point, and a proper prefix
   * comes before the longer string.
   */
  predicate Less(a: string, b: string)
  {
    if a == [] then b != []
    else if b == [] then false
    else if a[0] != b[0] then a[0] < b[0]
    else Less(a[1..], b[1..])
  }

  /** `<` never holds both ways (so in particular never between equal strings). */
  lemma {:induction false} LessAsymmetric(a: string, b: string)
    ensures Less(a, b) ==> !Less(b, a)
  {
    if a != [] && b != [] && a[0] == b[0] {
      LessAsymmetric(a[1..], b[1..]);
    }
  }

  /** `<` is transitive. */
  lemma {:induction false} LessTransitive(a: string, b: string, c: string)
    requires Less(a, b) && Less(b, c)
    ensures Less(a, c)
  {
    if a != [] && b != [] && c != [] && a[0] == b[0] && b[0] == c[0] {
      LessTransitive(a[1..], b[1..], c[1..]);
    }
  }

  /** Any two strings are equal or ordered one way or the other. */
  lemma {:induction false} LessTrichotomy(a: string, b: string)
    ensures Less(a, b) || a == b || Less(b, a)
  {
    if a != [] && b != [] && a[0] == b[0] {
      LessTrichotomy(a[1..], b[1..]);
      if a[1..] == b[1..] {
        assert a == [a[0]] + a[1..] && b == [b[0]] + b[1..];
      }
    }
  }

  /** No element is smaller than an earlier one. */
  predicate Sorted(ws: seq<string>)
  {
    forall i, j :: 0 <= i < j < |ws| ==> !Less(ws[j], ws[i])
  }

  /**
   * Where the scan for `w` stops: the first position holding a word greater
   * than or equal to `w`, or the end of the list.
   */
  function ScanStop(ws: seq<string>, w: string): (k: nat)
    ensures k <= |ws|
    ensures forall i :: 0 <= i < k ==> !Less(w, ws[i]) && ws[i] != w
    ensures k < |ws| ==> Less(w, ws[k]) || ws[k] == w
  {
    if ws == [] then 0
    else if Less(w, ws[0]) || ws[0] == w then 0
    else 1 + ScanStop(ws[1..], w)
  }

  /** The scan inserts `w` unless it stops at a word equal to `w`. */
  predicate Inserts(ws: seq<string>, w: string)
  {
    var k := ScanStop(ws, w);
    !(k < |ws| && ws[k] == w)
  }

  /** The list after trying to insert `w`: placed where the scan stopped, or unchanged. */
  function AfterInsert(ws: seq<string>, w: string): seq<string>
  {
    var k := ScanStop(ws, w);
    if Inserts(ws, w) then ws[..k] + [w] + ws[k..] else ws
  }

  /**
   * Scans the list for the first word greater than `wordToInsert`, returning
   * false at an equal word met first, and otherwise inserts it there or at the
   * end.
   */
  method InsertWord(list: WordList, wordToInsert: string) returns (inserted: bool)
    modifies list
    ensures inserted == Inserts(old(list.words), wordToInsert)
    ensures list.words == AfterInsert(old(list.words), wordToInsert)
  {
    var indexToInsert := 0;
    for i := 0 to |list.words|
      invariant list.words == old(list.words)
      invariant forall k :: 0 <= k < i ==> !Less(wordToInsert, list.words[k]) && list.words[k] != wordToInsert
      invariant indexToInsert == if i == |list.words| then i else 0
    {
      var word := list.words[i];
      if Less(wordToInsert, word) {
        LessAsymmetric(wordToInsert, word);
        indexToInsert := i;
        break;
      } else if wordToInsert == word {
        assert ScanStop(list.words, wordToInsert) == i;
        return false;
      }
      if i == |list.words| - 1 {
        indexToInsert := |list.words|;
      }
    }
    assert ScanStop(list.words, wordToInsert) == indexToInsert;
    list.words := list.words[..indexToInsert] + [wordToInsert] + list.words[indexToInsert..];
    return true;
  }

  /**
   * A position holding `w`, or a word greater than `w`, after words that are
   * all smaller than `w`, is where the scan stops.
   */
  lemma ScanStopAt(ws: seq<string>, w: string, p: nat)
    requires p <= |ws|
    requires forall i :: 0 <= i < p ==> Less(ws[i], w)
    requires p < |ws| ==> Less(w, ws[p]) || ws[p] == w
    ensures ScanStop(ws, w) == p
  {
    var k := ScanStop(ws, w);
    if k < p {
      LessAsymmetric(ws[k], w);
    }
  }

  /** Every word the scan passes is smaller than `w`. */
  lemma ScanStopPassesSmaller(ws: seq<string>, w: string)
    ensures forall i :: 0 <= i < ScanStop(ws, w) ==> Less(ws[i], w)
  {
    forall i | 0 <= i < ScanStop(ws, w)
      ensures Less(ws[i], w)
    {
      LessTrichotomy(ws[i], w);
    }
  }

  /**
   * On a sorted list the words before the stop are smaller than `w` and the
   * words from the stop on are greater than or equal to it.
   */
  lemma SortedScan(ws: seq<string>, w: string)
    requires Sorted(ws)
    ensures forall i :: 0 <= i < ScanStop(ws, w) ==> Less(ws[i], w)
    ensures forall i :: ScanStop(ws, w) <= i < |ws| ==> !Less(ws[i], w)
  {
    ScanStopPassesSmaller(ws, w);
    var k := ScanStop(ws, w);
    forall i | k <= i < |ws|
      ensures !Less(ws[i], w)
    {
      LessAsymmetric(w, w);
      if ws[k] != w && Less(ws[i], w) {
        LessTransitive(ws[i], w, ws[k]);
        LessAsymmetric(ws[k], ws[k]);
      }
    }
  }

  /** On a sorted list a word is inserted exactly when it is not already present. */
  lemma SortedInsertsIffAbsent(ws: seq<string>, w: string)
    requires Sorted(ws)
    ensures Inserts(ws, w) <==> w !in ws
  {
    SortedScan(ws, w);
    LessAsymmetric(w, w);
    if w in ws {
      var m :| 0 <= m < |ws| && ws[m] == w;
    }
  }

  /**
   * Inserting into a sorted list keeps it sorted; on success the list holds the
   * word and is one longer, and the words already there keep their order.
   */
  lemma InsertKeepsSorted(ws: seq<string>, w: string)
    requires Sorted(ws)
    ensures Sorted(AfterInsert(ws, w))
    ensures w in AfterInsert(ws, w)
    ensures Inserts(ws, w) ==> |AfterInsert(ws, w)| == |ws| + 1
  {
    SortedScan(ws, w);
    var k := ScanStop(ws, w);
    if Inserts(ws, w) {
      forall i | 0 <= i < k
        ensures !Less(w, ws[i])
      {
        LessAsymmetric(ws[i], w);
      }
      SortedInsertAt(ws, k, w);
    }
  }

  /** Putting `w` between the smaller and the not smaller words of a sorted list keeps it sorted. */
  lemma SortedInsertAt(ws: seq<string>, k: nat, w: string)
    requires Sorted(ws) && k <= |ws|
    requires forall i :: 0 <= i < k ==> !Less(w, ws[i])
    requires forall i :: k <= i < |ws| ==> !Less(ws[i], w)
    ensures Sorted(ws[..k] + [w] + ws[k..])
  {
    var r := ws[..k] + [w] + ws[k..];
    assert forall i :: 0 <= i < k ==> r[i] == ws[i];
    assert forall i :: k < i < |r| ==> r[i] == ws[i - 1];
  }

  /** Removing the inserted word gives back the original list. */
  lemma InsertThenRemove(ws: seq<string>, w: string)
    requires Inserts(ws, w)
    ensures var k := ScanStop(ws, w);
      && AfterInsert(ws, w)[k] == w
      && Without(AfterInsert(ws, w), {k}) == ws
  {
    var k := ScanStop(ws, w);
    assert AfterInsert(ws, w) == ws[..k] + [w] + ws[k..];
    InsertedThenRemoved(ws, k, w);
  }

  /** A successful insertion adds exactly the word; a failed one changes nothing. */
  lemma InsertCounts(ws: seq<string>, w: string)
    ensures Inserts(ws, w) ==> |AfterInsert(ws, w)| == |ws| + 1
    ensures Inserts(ws, w) ==> multiset(AfterInsert(ws, w)) == multiset(ws) + multiset{w}
    ensures !Inserts(ws, w) ==> AfterInsert(ws, w) == ws
  {
    var k := ScanStop(ws, w);
    assert ws == ws[..k] + ws[k..];
  }

  /** A word greater than every word of the list goes at its end (on an empty list, at index 0). */
  lemma AppendGreatest(ws: seq<string>, w: string)
    requires forall i :: 0 <= i < |ws| ==> Less(ws[i], w)
    ensures Inserts(ws, w) && AfterInsert(ws, w) == ws + [w]
  {
    ScanStopAt(ws, w, |ws|);
  }

  /** A position holding `w` after words that are all smaller than `w` is where the scan finds it. */
  lemma FoundAt(ws: seq<string>, w: string, p: nat)
    requires p < |ws| && ws[p] == w
    requires forall i :: 0 <= i < p ==> Less(ws[i], w)
    ensures !Inserts(ws, w)
  {
    ScanStopAt(ws, w, p);
  }

  /**
   * Once the scan for `w` finds it, it keeps finding it after any other word
   * is inserted.
   */
  lemma InsertKeepsFound(ws: seq<string>, w: string, v: string)
    requires !Inserts(ws, w)
    ensures !Inserts(AfterInsert(ws, v), w)
  {
    var p := ScanStop(ws, w);
    ScanStopPassesSmaller(ws, w);
    if Inserts(ws, v) {
      var q := ScanStop(ws, v);
      var r := ws[..q] + [v] + ws[q..];
      assert r == AfterInsert(ws, v);
      assert forall i :: 0 <= i < q ==> r[i] == ws[i];
      assert forall i :: q < i < |r| ==> r[i] == ws[i - 1];
      if q <= p {
        assert Less(v, ws[q]);
        if q < p {
          LessTransitive(v, ws[q], w);
        }
        assert r[q] == v;
        FoundAt(r, w, p + 1);
      } else {
        FoundAt(r, w, p);
      }
    }
  }

  /** An inserted word is found by the next scan for it. */
  lemma InsertedIsFound(ws: seq<string>, w: string)
    ensures !Inserts(AfterInsert(ws, w), w)
  {
    if Inserts(ws, w) {
      var k := ScanStop(ws, w);
      ScanStopPassesSmaller(ws, w);
      ScanStopAt(AfterInsert(ws, w), w, k);
    }
  }

  /** The list and the successful and failed words after inserting a batch. */
  datatype Batch = Batch(words: seq<string>, success: seq<string>, fail: seq<string>)

  /** Inserts the words of `batch` one after another, sorting each into success or fail. */
  function InsertBatch(ws: seq<string>, batch: seq<string>): Batch
  {
    if batch == [] then Batch(ws, [], [])
    else
      var n := |batch| - 1;
      var prev := InsertBatch(ws, batch[..n]);
      var w := batch[n];
      if Inserts(prev.words, w) then Batch(AfterInsert(prev.words, w), prev.success + [w], prev.fail)
      else Batch(prev.words, prev.success, prev.fail + [w])
  }

  /** Tries to insert each word of the batch in turn, collecting successes and failures. */
  method InsertWords(list: WordList, wordsToInsert: seq<string>) returns (success: seq<string>, fail: seq<string>)
    modifies list
    ensures InsertBatch(old(list.words), wordsToInsert) == Batch(list.words, success, fail)
  {
    success, fail := [], [];
    for i := 0 to |wordsToInsert|
      invariant InsertBatch(old(list.words), wordsToInsert[..i]) == Batch(list.words, success, fail)
    {
      var word := wordsToInsert[i];
      assert wordsToInsert[..i + 1][..i] == wordsToInsert[..i];
      var ok := InsertWord(list, word);
      if ok {
        success := success + [word];
      } else {
        fail := fail + [word];
      }
    }
    assert wordsToInsert[..|wordsToInsert|] == wordsToInsert;
  }

  /**
   * Every word of the batch lands in exactly one of success and fail, and the
   * list gains exactly the successful words.
   */
  lemma {:induction false} BatchPartition(ws: seq<string>, batch: seq<string>)
    ensures var r := InsertBatch(ws, batch);
      && |r.success| + |r.fail| == |batch|
      && multiset(r.success) + multiset(r.fail) == multiset(batch)
      && |r.words| == |ws| + |r.success|
      && multiset(r.words) == multiset(ws) + multiset(r.success)
  {
    if batch != [] {
      var n := |batch| - 1;
      BatchPartition(ws, batch[..n]);
      assert batch == batch[..n] + [batch[n]];
      var prev := InsertBatch(ws, batch[..n]);
      var w := batch[n];
      InsertCounts(prev.words, w);
    }
  }

  /** Success and fail each keep the batch's order. */
  lemma {:induction false} BatchKeepsOrder(ws: seq<string>, batch: seq<string>)
    ensures IsSubsequence(InsertBatch(ws, batch).success, batch)
    ensures IsSubsequence(InsertBatch(ws, batch).fail, batch)
  {
    if batch == [] {
      assert Embeds([], batch, []);
    } else {
      var n := |batch| - 1;
      BatchKeepsOrder(ws, batch[..n]);
      assert batch == batch[..n] + [batch[n]];
      var prev := InsertBatch(ws, batch[..n]);
      var r := InsertBatch(ws, batch);
      if Inserts(prev.words, batch[n]) {
        SubsequenceExtend(prev.success, batch[..n], batch[n]);
        SubsequenceWeaken(prev.fail, batch[..n], batch[n]);
      } else {
        SubsequenceWeaken(prev.success, batch[..n], batch[n]);
        SubsequenceExtend(prev.fail, batch[..n], batch[n]);
      }
    }
  }

  /** Inserting a batch into a sorted list keeps it sorted. */
  lemma {:induction false} BatchKeepsSorted(ws: seq<string>, batch: seq<string>)
    requires Sorted(ws)
    ensures Sorted(InsertBatch(ws, batch).words)
  {
    if batch != [] {
      var n := |batch| - 1;
      BatchKeepsSorted(ws, batch[..n]);
      InsertKeepsSorted(InsertBatch(ws, batch[..n]).words, batch[n]);
    }
  }

  /** After the word at position `i` of the batch is processed, the scan for it finds it. */
  lemma {:induction false} BatchWordFound(ws: seq<string>, batch: seq<string>, i: nat, m: nat)
    requires i < m <= |batch|
    ensures !Inserts(InsertBatch(ws, batch[..m]).words, batch[i])
    decreases m
  {
    var prefix := batch[..m];
    var n := m - 1;
    assert prefix[..n] == batch[..n];
    var prev := InsertBatch(ws, batch[..n]);
    if i == n {
      InsertedIsFound(prev.words, batch[i]);
    } else {
      BatchWordFound(ws, batch, i, n);
      InsertKeepsFound(prev.words, batch[i], batch[n]);
    }
  }

  /** A word repeated in the batch fails on its later occurrence, whatever the list. */
  lemma RepeatFails(ws: seq<string>, batch: seq<string>, i: nat, j: nat)
    requires i < j < |batch| && batch[i] == batch[j]
    ensures !Inserts(InsertBatch(ws, batch[..j]).words, batch[j])
    ensures InsertBatch(ws, batch[..j + 1]).fail == InsertBatch(ws, batch[..j]).fail + [batch[j]]
  {
    BatchWordFound(ws, batch, i, j);
    assert batch[..j + 1][..j] == batch[..j];
  }
}
