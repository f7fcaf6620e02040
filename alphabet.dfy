/**
 * Letters of strings: Python's `set(s)` and the letter universe
 * `set(''.join(candidates))` that the client keeps for its current candidates.
 */
module Alphabet {

  /** The distinct characters of `s`, as `set(s)` builds them. */
  function LetterSet(s: string): set<char>
  {
    set c | c in s
  }

  /** All candidates concatenated in order, as `''.join(candidates)`. */
  function Join(cands: seq<string>): string
  {
    if cands == [] then "" else Join(cands[..|cands| - 1]) + cands[|cands| - 1]
  }

  /** A character occurs in the joined string exactly when it occurs in one of the candidates. */
  lemma {:induction false} JoinContains(cands: seq<string>)
    ensures forall c :: c in Join(cands) <==> exists i :: 0 <= i < |cands| && c in cands[i]
  {
    if cands != [] {
      var prefix := cands[..|cands| - 1];
      JoinContains(prefix);
      forall c ensures c in Join(cands) <==> exists i :: 0 <= i < |cands| && c in cands[i] {
        if c in Join(cands) {
          if c !in Join(prefix) {
            assert c in cands[|cands| - 1];
          } else {
            var i :| 0 <= i < |prefix| && c in prefix[i];
            assert c in cands[i];
          }
        }
        if exists i :: 0 <= i < |cands| && c in cands[i] {
          var i :| 0 <= i < |cands| && c in cands[i];
          if i < |prefix| {
            assert c in prefix[i];
          }
        }
      }
    }
  }

  /** The letter universe of a candidate list, `set(''.join(cands))`. */
  function Universe(cands: seq<string>): set<char>
  {
    LetterSet(Join(cands))
  }

  /** The universe holds exactly the characters used by some candidate. */
  lemma UniverseContains(cands: seq<string>)
    ensures forall c :: c in Universe(cands) <==> exists i :: 0 <= i < |cands| && c in cands[i]
  {
    JoinContains(cands);
  }
}
