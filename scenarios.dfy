/**
 * Worked rounds: a full-match score, and a filter step that must compare
 * per-candidate scores rather than look for an exact match.
 */
module Scenarios {
  import opened Alphabet
  import opened Scoring
  import opened Session

  /** Against the secret "abc" the guess "abc" scores 3, every one of its letters. */
  lemma FullScoreScenario()
    ensures CorrectnessScore("abc", "abc") == 3
  {
    ScoreFullIff("abc", "abc");
  }

  /**
   * Guess "cat" against the secret "dog" scores 0; of ["cat", "dog", "bat"]
   * only "dog" also scores 0 against "cat" ("bat" shares 'a' and 't').
   */
  lemma FilterScenario()
    ensures CorrectnessScore("cat", "dog") == 0
    ensures Consistent("cat", 0, ["cat", "dog", "bat"]) == ["dog"]
  {
    ScoreZeroIff("cat", "dog");
    ScoreFullIff("cat", "cat");
    var bat := LetterSet("bat");
    assert 'c' !in bat && 'a' in bat && 't' in bat;
    assert "cat"[..2] == "ca" && "ca"[..1] == "c" && "c"[..0] == "";
    assert CountIn("c", bat) == 0;
    assert CountIn("ca", bat) == 1;
    assert CorrectnessScore("cat", "bat") == 2;
    var cands := ["cat", "dog", "bat"];
    assert cands[..2] == ["cat", "dog"] && cands[..2][..1] == ["cat"] && cands[..1][..0] == [];
    assert Consistent("cat", 0, ["cat"]) == [];
    assert Consistent("cat", 0, ["cat", "dog"]) == ["dog"];
  }
}
