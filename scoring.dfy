/**
 * The scorer shared by the oracle and the client: the number of characters
 * of a guess that occur anywhere in the password. Position is ignored and a
 * repeated character of the guess counts every time.
 */
module Scoring {
  import opened Alphabet

  /** How many characters of `guess`, counted with repetition, lie in `letters`. */
  function CountIn(guess: string, letters: set<char>): (n: nat)
    ensures n <= |guess|
  {
    if guess == [] then 0
    else CountIn(guess[..|guess| - 1], letters) + (if guess[|guess| - 1] in letters then 1 else 0)
  }

  /** `correctness_score(guess, password)`: never negative and never more than `|guess|`. */
  function CorrectnessScore(guess: string, password: string): (score: nat)
    ensures score <= |guess|
  {
    CountIn(guess, LetterSet(password))
  }

  /** The score sees the password only through its set of letters. */
  lemma ScoreDependsOnlyOnLetterSet(guess: string, p1: string, p2: string)
    requires forall c :: c in p1 <==> c in p2
    ensures CorrectnessScore(guess, p1) == CorrectnessScore(guess, p2)
  {
    assert LetterSet(p1) == LetterSet(p2);
  }

  lemma {:induction false} CountInAll(guess: string, letters: set<char>)
    ensures CountIn(guess, letters) == |guess| <==> forall i :: 0 <= i < |guess| ==> guess[i] in letters
  {
    if guess != [] {
      var prefix := guess[..|guess| - 1];
      CountInAll(prefix, letters);
      assert forall i :: 0 <= i < |prefix| ==> prefix[i] == guess[i];
    }
  }

  lemma {:induction false} CountInNone(guess: string, letters: set<char>)
    ensures CountIn(guess, letters) == 0 <==> forall i :: 0 <= i < |guess| ==> guess[i] !in letters
  {
    if guess != [] {
      var prefix := guess[..|guess| - 1];
      CountInNone(prefix, letters);
      assert forall i :: 0 <= i < |prefix| ==> prefix[i] == guess[i];
    }
  }

  /** A guess scores its full length exactly when each of its characters occurs in the password. */
  lemma ScoreFullIff(guess: string, password: string)
    ensures CorrectnessScore(guess, password) == |guess|
        <==> forall i :: 0 <= i < |guess| ==> guess[i] in password
  {
    CountInAll(guess, LetterSet(password));
  }

  /** A guess scores zero exactly when it shares no character with the password. */
  lemma ScoreZeroIff(guess: string, password: string)
    ensures CorrectnessScore(guess, password) == 0
        <==> forall i :: 0 <= i < |guess| ==> guess[i] !in password
  {
    CountInNone(guess, LetterSet(password));
  }
}
