/**
 * The round logic of `client()`: pick a guess, sanitize it against the letter
 * universe, send it to the oracle, stop on a full match, otherwise keep only
 * the candidates consistent with the feedback, and stop at the guess cap or
 * when no candidate is left. The socket is replaced by an oracle function.
 */
module Session {
  import opened Subsequence
  import opened Alphabet
  import opened Scoring
  import opened Selection

  /** The feedback value the client treats as "password found". */
  const FullMatch: int := 20
  /** The number of guesses after which the client gives up. */
  const GuessCap: nat := 15

  /** The three ways a session ends. */
  datatype Outcome = Exhausted | Solved | BudgetExceeded

  // ---------------------------------------------------------------- sanitizer

  /** `''.join([c for c in guess if c in universe])`. */
  function Sanitize(guess: string, universe: set<char>): (r: string)
    ensures IsSubsequence(r, guess)
    ensures forall c :: c in r <==> c in guess && c in universe
    ensures |r| == CountIn(guess, universe)
  {
    if guess == [] then ""
    else
      var prefix := guess[..|guess| - 1];
      var c := guess[|guess| - 1];
      assert guess == prefix + [c];
      var rest := Sanitize(prefix, universe);
      if c in universe then
        assert (rest + [c])[..|rest|] == rest;
        rest + [c]
      else rest
  }

  /** A guess all of whose characters are in the universe comes through unchanged. */
  lemma {:induction false} SanitizeKeepsAdmissible(guess: string, universe: set<char>)
    requires forall i :: 0 <= i < |guess| ==> guess[i] in universe
    ensures Sanitize(guess, universe) == guess
  {
    if guess != [] {
      var prefix := guess[..|guess| - 1];
      SanitizeKeepsAdmissible(prefix, universe);
      assert guess == prefix + [guess[|guess| - 1]];
    }
  }

  /** A candidate sanitized against the universe of its own list is left as it is. */
  lemma SanitizeCandidate(guess: string, cands: seq<string>)
    requires guess in cands
    ensures Sanitize(guess, Universe(cands)) == guess
  {
    var k :| 0 <= k < |cands| && cands[k] == guess;
    assert forall i :: 0 <= i < |guess| ==> guess[i] in cands[k];
    UniverseContains(cands);
    SanitizeKeepsAdmissible(guess, Universe(cands));
  }

  /** The score of a guess is the length of the guess sanitized against the password's letters. */
  lemma ScoreIsSanitizedLength(guess: string, password: string)
    ensures CorrectnessScore(guess, password) == |Sanitize(guess, LetterSet(password))|
  {
  }

  // ------------------------------------------------------------------- filter

  /** The candidates `pw` with `correctness_score(guess, pw) == feedback`, in their original order. */
  function Consistent(guess: string, feedback: int, cands: seq<string>): seq<string>
  {
    if cands == [] then []
    else
      var pw := cands[|cands| - 1];
      var rest := Consistent(guess, feedback, cands[..|cands| - 1]);
      if CorrectnessScore(guess, pw) == feedback then rest + [pw] else rest
  }

  /** A candidate survives the filter exactly when its score against the guess equals the feedback. */
  lemma {:induction false} ConsistentContains(guess: string, feedback: int, cands: seq<string>)
    ensures forall pw ::
      pw in Consistent(guess, feedback, cands) <==> pw in cands && CorrectnessScore(guess, pw) == feedback
  {
    if cands != [] {
      var prefix := cands[..|cands| - 1];
      ConsistentContains(guess, feedback, prefix);
      assert cands == prefix + [cands[|cands| - 1]];
    }
  }

  /** Every copy of a matching candidate survives, and no copy of any other. */
  lemma {:induction false} ConsistentCount(guess: string, feedback: int, cands: seq<string>, pw: string)
    ensures multiset(Consistent(guess, feedback, cands))[pw]
      == if CorrectnessScore(guess, pw) == feedback then multiset(cands)[pw] else 0
  {
    if cands != [] {
      var prefix := cands[..|cands| - 1];
      ConsistentCount(guess, feedback, prefix, pw);
      assert cands == prefix + [cands[|cands| - 1]];
    }
  }

  /** The survivors keep the order they had in the candidate list. */
  lemma {:induction false} ConsistentIsSubsequence(guess: string, feedback: int, cands: seq<string>)
    ensures IsSubsequence(Consistent(guess, feedback, cands), cands)
  {
    if cands != [] {
      var prefix := cands[..|cands| - 1];
      var pw := cands[|cands| - 1];
      var rest := Consistent(guess, feedback, prefix);
      ConsistentIsSubsequence(guess, feedback, prefix);
      if CorrectnessScore(guess, pw) == feedback {
        assert (rest + [pw])[..|rest|] == rest;
      }
    }
  }

  /** The filter loop of `client()`, building `new_possible_passwords`. */
  method FilterCandidates(guess: string, feedback: int, cands: seq<string>) returns (survivors: seq<string>)
    ensures survivors == Consistent(guess, feedback, cands)
  {
    survivors := [];
    for i := 0 to |cands|
      invariant survivors == Consistent(guess, feedback, cands[..i])
    {
      assert cands[..i + 1][..i] == cands[..i];
      var score := CorrectnessScore(guess, cands[i]);
      if score == feedback {
        survivors := survivors + [cands[i]];
      }
    }
    assert cands[..|cands|] == cands;
  }

  /** Filtering never lengthens the candidate list. */
  lemma {:induction false} ConsistentShrinks(guess: string, feedback: int, cands: seq<string>)
    ensures |Consistent(guess, feedback, cands)| <= |cands|
  {
    ConsistentIsSubsequence(guess, feedback, cands);
    SubsequenceLength(Consistent(guess, feedback, cands), cands);
  }

  /** Filtering twice with the same guess and feedback is filtering once. */
  lemma {:induction false} ConsistentIdempotent(guess: string, feedback: int, cands: seq<string>)
    ensures Consistent(guess, feedback, Consistent(guess, feedback, cands)) == Consistent(guess, feedback, cands)
  {
    if cands != [] {
      var prefix := cands[..|cands| - 1];
      var pw := cands[|cands| - 1];
      var rest := Consistent(guess, feedback, prefix);
      ConsistentIdempotent(guess, feedback, prefix);
      if CorrectnessScore(guess, pw) == feedback {
        assert (rest + [pw])[..|rest + [pw]| - 1] == rest;
      }
    }
  }

  /** When the feedback is the secret's own score, the secret passes the filter. */
  lemma {:induction false} SecretSurvivesFilter(guess: string, secret: string, cands: seq<string>)
    requires secret in cands
    ensures secret in Consistent(guess, CorrectnessScore(guess, secret), cands)
  {
    ConsistentContains(guess, CorrectnessScore(guess, secret), cands);
  }

  // ------------------------------------------------------------ whole session

  /** `pw` agrees with the oracle's feedback on every guess in `guesses`. */
  ghost predicate ConsistentWithAll(pw: string, guesses: seq<string>, oracle: string -> int)
  {
    forall i :: 0 <= i < |guesses| ==> CorrectnessScore(guesses[i], pw) == oracle(guesses[i])
  }

  /** The candidate list left after filtering by each guess of `guesses` in turn. */
  function PruneAll(cands: seq<string>, guesses: seq<string>, oracle: string -> int): seq<string>
  {
    if guesses == [] then cands
    else
      var g := guesses[|guesses| - 1];
      Consistent(g, oracle(g), PruneAll(cands, guesses[..|guesses| - 1], oracle))
  }

  /** The pruned list holds exactly the candidates that agree with the feedback on every guess. */
  lemma {:induction false} PruneAllContains(cands: seq<string>, guesses: seq<string>, oracle: string -> int)
    ensures forall pw ::
      pw in PruneAll(cands, guesses, oracle) <==> pw in cands && ConsistentWithAll(pw, guesses, oracle)
  {
    if guesses != [] {
      var earlier := guesses[..|guesses| - 1];
      var g := guesses[|guesses| - 1];
      PruneAllContains(cands, earlier, oracle);
      ConsistentContains(g, oracle(g), PruneAll(cands, earlier, oracle));
      assert forall pw ::
        ConsistentWithAll(pw, guesses, oracle)
        <==> ConsistentWithAll(pw, earlier, oracle) && CorrectnessScore(g, pw) == oracle(g);
    }
  }

  /** After several rounds every copy of a password agreeing with all feedback remains, and no copy of any other. */
  lemma {:induction false} PruneAllCount(cands: seq<string>, guesses: seq<string>, oracle: string -> int, pw: string)
    ensures multiset(PruneAll(cands, guesses, oracle))[pw]
      == if ConsistentWithAll(pw, guesses, oracle) then multiset(cands)[pw] else 0
  {
    if guesses != [] {
      var earlier := guesses[..|guesses| - 1];
      var g := guesses[|guesses| - 1];
      PruneAllCount(cands, earlier, oracle, pw);
      ConsistentCount(g, oracle(g), PruneAll(cands, earlier, oracle), pw);
      assert ConsistentWithAll(pw, guesses, oracle)
        <==> ConsistentWithAll(pw, earlier, oracle) && CorrectnessScore(g, pw) == oracle(g);
    }
  }

  /** Candidate lists only shrink from round to round: each is a subsequence of the one before. */
  lemma {:induction false} PruneAllMonotone(cands: seq<string>, guesses: seq<string>, oracle: string -> int, i: nat)
    requires i <= |guesses|
    ensures IsSubsequence(PruneAll(cands, guesses, oracle), PruneAll(cands, guesses[..i], oracle))
    ensures |PruneAll(cands, guesses, oracle)| <= |PruneAll(cands, guesses[..i], oracle)|
    decreases |guesses|
  {
    if i == |guesses| {
      assert guesses[..i] == guesses;
      SubsequenceReflexive(PruneAll(cands, guesses, oracle));
    } else {
      var earlier := guesses[..|guesses| - 1];
      var g := guesses[|guesses| - 1];
      assert earlier[..i] == guesses[..i];
      PruneAllMonotone(cands, earlier, oracle, i);
      ConsistentIsSubsequence(g, oracle(g), PruneAll(cands, earlier, oracle));
      SubsequenceTransitive(PruneAll(cands, guesses, oracle), PruneAll(cands, earlier, oracle), PruneAll(cands, guesses[..i], oracle));
    }
    SubsequenceLength(PruneAll(cands, guesses, oracle), PruneAll(cands, guesses[..i], oracle));
  }

  /** The oracle answers every guess with its score against `secret`. */
  ghost predicate ScoresAgainst(oracle: string -> int, secret: string)
  {
    forall g :: oracle(g) == CorrectnessScore(g, secret)
  }

  /** An honest oracle's secret, if it was a candidate, is never pruned. */
  lemma SecretSurvivesAll(cands: seq<string>, guesses: seq<string>, oracle: string -> int)
    ensures forall secret :: secret in cands && ScoresAgainst(oracle, secret) ==>
      secret in PruneAll(cands, guesses, oracle)
  {
    PruneAllContains(cands, guesses, oracle);
    forall secret | secret in cands && ScoresAgainst(oracle, secret)
      ensures secret in PruneAll(cands, guesses, oracle)
    {
      assert ConsistentWithAll(secret, guesses, oracle);
    }
  }

  /** The guess a round sends for the current candidates: the sole candidate, or the selector's choice. */
  ghost predicate IsChosenGuess(cands: seq<string>, guess: string)
  {
    if |cands| == 1 then guess == cands[0]
    else exists k :: IsFirstMaximum(cands, k) && cands[k] == guess
  }

  /** Every guess in `sent` is the one chosen from the candidates left by the guesses before it. */
  ghost predicate IsTranscript(passwords: seq<string>, sent: seq<string>, oracle: string -> int)
    decreases |sent|
  {
    sent != [] ==>
      var earlier := sent[..|sent| - 1];
      IsTranscript(passwords, earlier, oracle)
      && IsChosenGuess(PruneAll(passwords, earlier, oracle), sent[|sent| - 1])
  }

  /** Guess `i` of a transcript was chosen from the candidates left after guesses `0..i-1`. */
  lemma {:induction false} TranscriptChosenAt(passwords: seq<string>, sent: seq<string>, oracle: string -> int)
    requires IsTranscript(passwords, sent, oracle)
    ensures forall i :: 0 <= i < |sent| ==> IsChosenGuess(PruneAll(passwords, sent[..i], oracle), sent[i])
    decreases |sent|
  {
    if sent != [] {
      var earlier := sent[..|sent| - 1];
      TranscriptChosenAt(passwords, earlier, oracle);
      forall i | 0 <= i < |sent|
        ensures IsChosenGuess(PruneAll(passwords, sent[..i], oracle), sent[i])
      {
        if i < |earlier| {
          assert sent[..i] == earlier[..i];
        }
      }
    }
  }

  /** Sending one more chosen guess extends the transcript; its feedback filters the current candidates. */
  lemma TranscriptExtend(passwords: seq<string>, sent: seq<string>, oracle: string -> int, guess: string)
    requires IsTranscript(passwords, sent, oracle)
    requires IsChosenGuess(PruneAll(passwords, sent, oracle), guess)
    ensures IsTranscript(passwords, sent + [guess], oracle)
    ensures PruneAll(passwords, sent + [guess], oracle)
         == Consistent(guess, oracle(guess), PruneAll(passwords, sent, oracle))
  {
    assert (sent + [guess])[..|sent|] == sent;
  }

  /** Every guess of a transcript is one of the passwords. */
  lemma TranscriptMembers(passwords: seq<string>, sent: seq<string>, oracle: string -> int)
    requires IsTranscript(passwords, sent, oracle)
    ensures forall i :: 0 <= i < |sent| ==> sent[i] in passwords
  {
    TranscriptChosenAt(passwords, sent, oracle);
    forall i | 0 <= i < |sent|
      ensures sent[i] in passwords
    {
      var cands := PruneAll(passwords, sent[..i], oracle);
      ChosenIsCandidate(cands, sent[i]);
      PruneAllContains(passwords, sent[..i], oracle);
    }
  }

  /** A chosen guess is one of the candidates it was chosen from. */
  lemma ChosenIsCandidate(cands: seq<string>, guess: string)
    requires IsChosenGuess(cands, guess)
    ensures guess in cands
  {
    if |cands| != 1 {
      var k :| IsFirstMaximum(cands, k) && cands[k] == guess;
    }
  }

  /**
   * The first half of a round of `client()`: the guess is the sole candidate
   * or the selector's choice, sanitized against the letter universe, and the
   * oracle's feedback on it. Sanitizing leaves the chosen candidate unchanged.
   */
  method SendGuess(possible: seq<string>, letters: set<char>, oracle: string -> int)
    returns (guess: string, feedback: int)
    requires possible != [] && letters == Universe(possible)
    ensures IsChosenGuess(possible, guess) && guess in possible
    ensures feedback == oracle(guess)
  {
    if |possible| == 1 {
      guess := possible[0];
    } else {
      var choice := SelectBestGuess(possible);
      guess := choice.value;
    }
    assert IsChosenGuess(possible, guess);
    ChosenIsCandidate(possible, guess);
    SanitizeCandidate(guess, possible);
    guess := Sanitize(guess, letters);
    feedback := oracle(guess);
  }

  /**
   * The `while True` loop of `client()`. Returns how the session ended, the
   * number of guesses sent, the final candidate list and the guesses in the
   * order they were sent.
   */
  method RunClient(passwords: seq<string>, oracle: string -> int, fullMatch: int, cap: nat)
    returns (outcome: Outcome, guessesMade: nat, remaining: seq<string>, sent: seq<string>)
    // one guess per round, each the one chosen from that round's candidates,
    // which are the passwords consistent with all earlier feedback
    ensures guessesMade == |sent|
    ensures IsTranscript(passwords, sent, oracle)
    ensures forall i :: 0 <= i < |sent| ==> sent[i] in passwords
    // only the last guess can end the session
    ensures forall i :: 0 <= i < |sent| - 1 ==> oracle(sent[i]) != fullMatch
    ensures guessesMade > 1 ==> guessesMade - 1 < cap
    ensures guessesMade <= if cap == 0 then 1 else cap
    // the three exits
    ensures outcome == Exhausted ==>
      remaining == [] && remaining == PruneAll(passwords, sent, oracle) && (guessesMade == 0 || guessesMade < cap)
    ensures outcome == Solved ==>
      guessesMade > 0 && oracle(sent[|sent| - 1]) == fullMatch
      && remaining == PruneAll(passwords, sent[..|sent| - 1], oracle) && sent[|sent| - 1] in remaining
    ensures outcome == BudgetExceeded ==>
      guessesMade > 0 && guessesMade >= cap && oracle(sent[|sent| - 1]) != fullMatch
      && remaining == PruneAll(passwords, sent, oracle)
    ensures IsSubsequence(remaining, passwords) && |remaining| <= |passwords|
    // an honest oracle's secret is never pruned, so the candidates never run out
    ensures forall secret :: secret in passwords && ScoresAgainst(oracle, secret) ==>
      secret in remaining && outcome != Exhausted
  {
    var possible := passwords;
    guessesMade := 0;
    var letters := Universe(possible);
    sent := [];
    outcome := Exhausted;
    while true
      invariant guessesMade == |sent|
      invariant guessesMade == 0 || guessesMade < cap
      invariant possible == PruneAll(passwords, sent, oracle)
      invariant letters == Universe(possible)
      invariant IsTranscript(passwords, sent, oracle)
      invariant forall i :: 0 <= i < |sent| ==> oracle(sent[i]) != fullMatch
      decreases cap - guessesMade
    {
      if possible == [] {
        outcome := Exhausted;
        break;
      }

      var guess, feedback := SendGuess(possible, letters, oracle);
      TranscriptExtend(passwords, sent, oracle, guess);
      ghost var earlier := sent;
      sent := sent + [guess];
      guessesMade := guessesMade + 1;
      assert sent[..|earlier|] == earlier;

      if feedback == fullMatch {
        outcome := Solved;
        break;
      }

      possible := FilterCandidates(guess, feedback, possible);
      letters := Universe(possible);

      if guessesMade >= cap {
        outcome := BudgetExceeded;
        break;
      }
    }
    remaining := possible;
    TranscriptMembers(passwords, sent, oracle);
    ghost var filtered := if outcome == Solved then sent[..|sent| - 1] else sent;
    PruneAllMonotone(passwords, filtered, oracle, 0);
    assert filtered[..0] == [];
    SecretSurvivesAll(passwords, filtered, oracle);
  }

  /** `client()` with the source's constants: full match at 20, at most 15 guesses. */
  method Client(passwords: seq<string>, oracle: string -> int) returns (outcome: Outcome, guessesMade: nat)
    ensures guessesMade <= GuessCap
    ensures outcome == Exhausted ==> guessesMade < GuessCap
    ensures outcome == BudgetExceeded ==> guessesMade == GuessCap
    ensures forall secret :: secret in passwords && ScoresAgainst(oracle, secret) ==> outcome != Exhausted
  {
    var remaining, sent;
    outcome, guessesMade, remaining, sent := RunClient(passwords, oracle, FullMatch, GuessCap);
  }
}
