/**
 * How the object-based engine of the helper class relates to the procedural
 * engine: they differ only in the joint rule for a repeated letter.
 */
module Agreement {
  import opened Outcomes
  import opened Lists
  import opened Letters
  import opened Feedback
  import Solve
  import Helper

  /**
   * With green or yellow at the first position the two joint rules agree,
   * except for (yellow, black), where the helper also requires that the last
   * position not hold the letter.
   */
  lemma JointRulesAgree(c: string, guess: string, colors: seq<Color>, a: nat, b: nat)
    requires a < |guess| && b < |guess| && |colors| == |guess| && colors[a] != B
    ensures (colors[a], colors[b]) != (Y, B) ==>
      (Helper.HelperDuplicateKeep(c, guess, colors, a, b) <==> Solve.DuplicateKeep(c, guess, colors, a, b))
    ensures (colors[a], colors[b]) == (Y, B) ==>
      (Helper.HelperDuplicateKeep(c, guess, colors, a, b) <==>
         Solve.DuplicateKeep(c, guess, colors, a, b) && !HasAt(c, b, guess[b]))
  {
  }

  /**
   * When the guess has no repeated letter, or its colours at the first and last
   * position of the repeated letter are neither black first nor (yellow, black),
   * both engines leave the same candidates.
   */
  lemma EnginesAgree(ws: seq<string>, colors: seq<Color>, guess: string)
    requires |colors| == |guess|
    requires DuplicateLetter(guess).Some? ==>
      var x := DuplicateLetter(guess).value;
      var a, b := FirstIndex(guess, x), LastIndex(guess, x);
      colors[a] != B && (colors[a], colors[b]) != (Y, B)
    ensures Helper.UpdateResult(ws, colors, guess) == Ok(Solve.Survivors(ws, colors, guess))
  {
    var dup := DuplicateLetter(guess);
    if dup.Some? {
      var x := dup.value;
      var a, b := FirstIndex(guess, x), LastIndex(guess, x);
      var helperRule := Helper.HelperDuplicateRule(guess, colors, a, b);
      var solveRule := Solve.DuplicateRule(guess, colors, a, b);
      forall c | c in ws
        ensures helperRule(c) == solveRule(c)
      {
        JointRulesAgree(c, guess, colors, a, b);
      }
      FilterSameKeep(ws, helperRule, solveRule);
    }
  }
}
