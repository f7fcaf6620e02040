# Password-Hunter client, modelled in Dafny

Password-Hunter's client guesses a secret password that is held by a scoring
server. It starts from a dictionary of candidate passwords. Each round it picks
one candidate as its guess and sends it to the server, which replies with a
number. The server's code is not part of `main.py` (it is a separately launched
program, main.py:127). The client assumes the reply is `correctness_score` of the
guess against the secret: the number of the guess's characters that occur
anywhere in the secret. It then keeps only the candidates that would have earned
that same score (main.py:106-107). The model states that assumption as the
`ScoresAgainst` hypothesis.
It stops when the score is the full-match value (20), when no candidate is
left, or after 15 guesses.

This project models that guess-and-prune core of `main.py` and proves its
properties:

- `scoring.dfy` (module `Scoring`): `correctness_score`. It gives the count
  bounds, shows the score sees the password only through its letter set, and
  characterises a full score and a zero score.
- `selection.dfy` (module `Selection`): `select_best_guess`, as a method with
  both of the source's loops. The `Counter` is a `multiset<char>`. A candidate's
  weight is defined as the sum of the tallies over `set(pw)` (`SetSum`, a
  reference sum over a set). The method returns the first candidate of greatest
  weight, and `None` on an empty list, as Python does.
- `session.dfy` (module `Session`): the round logic of `client()`.
  - `Sanitize` is the list comprehension of line 85.
  - `Consistent` and the method `FilterCandidates` are the filter of lines 104-109.
  - `PruneAll` is the candidate list after a series of rounds.
  - `SendGuess` covers lines 77-93: it picks, sanitizes and sends one guess.
  - `RunClient` is the `while True` loop.
  - The server becomes an oracle function `string -> int`. An honest oracle is
    `g => CorrectnessScore(g, secret)` (`ScoresAgainst`).
  - The full-match value and the guess cap are parameters. `Client` fixes them
    at the source's 20 and 15.
- `alphabet.dfy` (module `Alphabet`): `set(s)`, `''.join(...)` and the letter
  universe.
- `subsequence.dfy` (module `Subsequence`): the "subsequence" relation, meaning
  "obtained by deleting elements while keeping the order".
- `scenarios.dfy` (module `Scenarios`): two worked examples.

The loop's invariants are stated and proved:
- the candidate list is always `PruneAll(passwords, sent)`;
- the letter universe is always `Universe(candidates)`;
- every guess sent so far was the one chosen from the candidates of its round;
- no earlier feedback was a full match.

The sanitizer is proved to leave the chosen guess unchanged (`SanitizeCandidate`).
This is because the guess is always a current candidate and the universe is the
letter set of the current candidates. So the string that is sent, and then used
for filtering, is exactly the selected candidate. The possible shortening of the
guess by the sanitizer therefore never happens.

The guess counter is incremented right after sending (main.py:90), so a solving
guess is counted. A failure during the exchange only prints the exception
(main.py:119-120); that path is not modelled (see below).

## Model

| member | source | states |
|---|---|---|
| `Scoring.CorrectnessScore` | main.py:7-19 | the score is a natural number no larger than the length of the guess |
| `Scoring.ScoreDependsOnlyOnLetterSet` | main.py:18-19 | two passwords with the same set of letters give every guess the same score |
| `Scoring.ScoreFullIff` | main.py:18-19 | a guess scores its full length iff every one of its characters occurs in the password |
| `Scoring.ScoreZeroIff` | main.py:18-19 | a guess scores 0 iff none of its characters occurs in the password |
| `Alphabet.UniverseContains` | main.py:62 | `set(''.join(cands))` holds exactly the characters that occur in some candidate |
| `Selection.TallyCountsJoin` | main.py:33-35 | the `Counter` filled by `update(pw)` for every candidate is the multiset of all characters of the joined candidates |
| `Selection.DistinctWeight` | main.py:41 | summing tallies letter by letter, each distinct letter once, equals the sum of tallies over `set(pw)` |
| `Selection.FirstMaximumUnique` | main.py:38-44 | at most one position is a first maximum, so the selection is determined by the candidate list |
| `Selection.SelectBestGuess` | main.py:22-45 | `None` iff the list is empty; otherwise a candidate of greatest weight (tallies over all candidates, weight over its distinct letters) whose predecessors all weigh strictly less |
| `Session.Sanitize` | main.py:85 | the result is a subsequence of the guess, contains exactly the guess's characters that lie in the universe, and keeps every occurrence of them (its length is the number of the guess's characters in the universe) |
| `Session.SanitizeKeepsAdmissible` | main.py:85 | a guess whose characters all lie in the universe is returned unchanged |
| `Session.SanitizeCandidate` | main.py:78-85 | a current candidate sanitized against the universe of the current candidates is unchanged |
| `Session.ScoreIsSanitizedLength` | main.py:18-19 | the score equals the length of the guess filtered to the password's letters |
| `Session.ConsistentContains` | main.py:104-109 | a candidate survives the filter iff it was a candidate and its score against the guess equals the feedback |
| `Session.ConsistentCount` | main.py:104-109 | each candidate value with the right score keeps all its copies and every other value keeps none, so duplicate dictionary entries are all kept |
| `Session.ConsistentIsSubsequence` | main.py:104-109 | the survivors keep their original order: they form a subsequence of the candidates |
| `Session.FilterCandidates` | main.py:104-109 | the filter loop builds exactly `Consistent(guess, feedback, cands)` |
| `Session.ConsistentShrinks` | main.py:104-109 | filtering never increases the number of candidates |
| `Session.ConsistentIdempotent` | main.py:104-109 | filtering twice with the same guess and feedback gives the same list as filtering once |
| `Session.SecretSurvivesFilter` | main.py:104-109 | when the feedback is the secret's own score, a secret in the list survives the filter |
| `Session.PruneAllContains` | main.py:103-113 | after several rounds a password remains iff it was a candidate and agrees with the feedback on every guess |
| `Session.PruneAllCount` | main.py:103-113 | after several rounds each password agreeing with every feedback keeps all its copies from the dictionary and every other password keeps none |
| `Session.PruneAllMonotone` | main.py:103-113 | each round's candidate list is a subsequence of every earlier round's, and no longer |
| `Session.SecretSurvivesAll` | main.py:96-109 | an honest oracle's secret, if it was a candidate, remains after any series of rounds |
| `Session.ChosenIsCandidate` | main.py:78-82 | the chosen guess is one of the current candidates |
| `Session.TranscriptChosenAt` | main.py:77-90 | guess `i` was chosen from the candidates left by guesses `0..i-1` |
| `Session.TranscriptExtend` | main.py:77-113 | a new chosen guess extends the transcript, and its feedback filters the current candidates |
| `Session.TranscriptMembers` | main.py:78-85 | every guess sent is one of the dictionary's passwords |
| `Session.SendGuess` | main.py:77-93 | the guess sent is the sole candidate or the selector's first maximum, unchanged by sanitizing, and the feedback is the oracle's answer to it |
| `Session.RunClient` | main.py:58-118 | one guess per counted round, each chosen from that round's candidates; only the last feedback can be a full match; at most `cap` guesses (one when `cap` is 0); exhausted means the list is empty, no guess was made in that round and the cap was not reached; solved means the last feedback was the full match and that round's list was not filtered; budget exceeded means the cap was reached; the final list is a subsequence of the dictionary; an honest oracle's secret is never pruned, so the session never ends exhausted |
| `Session.Client` | main.py:98-118 | with the source's constants: at most 15 guesses, budget exceeded exactly at 15, and never exhausted when the oracle is honest about a secret in the dictionary |
| `Scenarios.FullScoreScenario` | main.py:18-19 | guess "abc" against secret "abc" scores 3 |
| `Scenarios.FilterScenario` | main.py:104-109 | guess "cat" against secret "dog" scores 0, and of ["cat", "dog", "bat"] only "dog" survives |

## Left out

- The socket connection, `send`, `recv` and UTF-8 encoding (main.py:65-67, 89, 93). These are network I/O. The server is an oracle function passed to `RunClient`.
- `int(feedback)` and the catch-all `except Exception` (main.py:97, 119-120). The model's oracle returns an integer directly. The exception path, which ends the session with a printed error, is not modelled.
- Reading `passwords.txt` and stripping blank lines (main.py:55-56). This is file I/O. The dictionary is the `passwords` parameter.
- `run_server`, `os.system` and the two threads (main.py:123-141). These are a process launch and concurrency.
- `print` calls and the never-read `successes` list (main.py:68, 74, 88, 94, 99-100, 110, 117). They are output only.
