/**
 * `select_best_guess`: letter frequencies are tallied over all candidates
 * (with multiplicity, as a `Counter`), each candidate is weighted by the
 * tallies of its distinct letters, and the first candidate of greatest
 * weight is returned.
 */
module Selection {
  import opened Wrappers
  import opened Alphabet

  /** The `Counter` filled by `letter_counts.update(pw)` for every candidate, as a multiset of letters. */
  function Tally(cands: seq<string>): multiset<char>
  {
    if cands == [] then multiset{} else Tally(cands[..|cands| - 1]) + multiset(cands[|cands| - 1])
  }

  /** The tally holds every letter of the joined candidates, once per occurrence. */
  lemma {:induction false} TallyCountsJoin(cands: seq<string>)
    ensures Tally(cands) == multiset(Join(cands))
  {
    if cands != [] {
      TallyCountsJoin(cands[..|cands| - 1]);
    }
  }

  /** `sum(counts[c] for c in letters)`: the reference definition of a sum over a set. */
  ghost function SetSum(letters: set<char>, counts: multiset<char>): nat
    decreases letters
  {
    if letters == {} then 0
    else
      var c :| c in letters;
      counts[c] + SetSum(letters - {c}, counts)
  }

  /** The sum over a set may take out any one of its letters first. */
  lemma {:induction false} SetSumRemove(letters: set<char>, counts: multiset<char>, c: char)
    requires c in letters
    ensures SetSum(letters, counts) == counts[c] + SetSum(letters - {c}, counts)
    decreases letters
  {
    var d :| d in letters && SetSum(letters, counts) == counts[d] + SetSum(letters - {d}, counts);
    if d != c {
      SetSumRemove(letters - {d}, counts, c);
      SetSumRemove(letters - {c}, counts, d);
      assert letters - {d} - {c} == letters - {c} - {d};
    }
  }

  /** A candidate's weight: the tallies of its distinct letters, summed. */
  ghost function Weight(pw: string, counts: multiset<char>): nat
  {
    SetSum(LetterSet(pw), counts)
  }

  /** Adding one more character to a string adds its tally to the weight unless the letter was already there. */
  lemma WeightStep(prefix: string, c: char, counts: multiset<char>)
    ensures Weight(prefix + [c], counts)
         == Weight(prefix, counts) + (if c in prefix then 0 else counts[c])
  {
    var s := prefix + [c];
    if c in prefix {
      assert LetterSet(s) == LetterSet(prefix);
    } else {
      assert LetterSet(s) - {c} == LetterSet(prefix);
      SetSumRemove(LetterSet(s), counts, c);
    }
  }

  /** The weight computed letter by letter, each distinct letter taken at its first occurrence. */
  function DistinctWeight(pw: string, counts: multiset<char>): (w: nat)
    ensures w == Weight(pw, counts)
  {
    if pw == [] then
      assert LetterSet(pw) == {};
      0
    else
      var prefix := pw[..|pw| - 1];
      var c := pw[|pw| - 1];
      assert pw == prefix + [c];
      WeightStep(prefix, c, counts);
      DistinctWeight(prefix, counts) + (if c in prefix then 0 else counts[c])
  }

  /**
   * Position `k` holds a candidate of greatest weight (tallies taken over the
   * whole list), and every candidate before it weighs strictly less.
   */
  ghost predicate IsFirstMaximum(cands: seq<string>, k: int)
  {
    && 0 <= k < |cands|
    && (forall j :: 0 <= j < |cands| ==> Weight(cands[j], Tally(cands)) <= Weight(cands[k], Tally(cands)))
    && (forall j :: 0 <= j < k ==> Weight(cands[j], Tally(cands)) < Weight(cands[k], Tally(cands)))
  }

  /** At most one position is the first maximum, so the selection is determined by the list. */
  lemma FirstMaximumUnique(cands: seq<string>, k1: int, k2: int)
    requires IsFirstMaximum(cands, k1) && IsFirstMaximum(cands, k2)
    ensures k1 == k2
  {
    var counts := Tally(cands);
    assert Weight(cands[k1], counts) == Weight(cands[k2], counts);
  }

  /** `select_best_guess`: `None` on an empty list, otherwise the first candidate of greatest weight. */
  method SelectBestGuess(cands: seq<string>) returns (best: Option<string>)
    ensures best.None? <==> cands == []
    ensures best.Some? ==> exists k :: IsFirstMaximum(cands, k) && cands[k] == best.value
  {
    var counts: multiset<char> := multiset{};
    for i := 0 to |cands|
      invariant counts == Tally(cands[..i])
    {
      assert cands[..i + 1][..i] == cands[..i];
      counts := counts + multiset(cands[i]);
    }
    assert cands[..|cands|] == cands;

    var maxScore: int := -1;
    best := None;
    ghost var bestIndex := -1;
    for i := 0 to |cands|
      invariant best.None? <==> i == 0
      invariant i == 0 ==> maxScore == -1 && bestIndex == -1
      invariant i > 0 ==> 0 <= bestIndex < i && best == Some(cands[bestIndex])
                          && maxScore == Weight(cands[bestIndex], counts)
      invariant forall j :: 0 <= j < i ==> Weight(cands[j], counts) <= maxScore
      invariant forall j :: 0 <= j < bestIndex ==> Weight(cands[j], counts) < maxScore
    {
      var score := DistinctWeight(cands[i], counts);
      if score > maxScore {
        maxScore := score;
        best := Some(cands[i]);
        bestIndex := i;
      }
    }
    if best.Some? {
      assert IsFirstMaximum(cands, bestIndex);
    }
  }
}
