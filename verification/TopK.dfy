/** Taking the k highest-scoring members of a pool in two rounds. */
module TopK {

  function Smaller(a: nat, b: nat): nat {
    if a < b then a else b
  }

  /** best holds as many members of pool as k allows, and nothing left out scores higher. */
  ghost predicate Best<T(!new)>(best: multiset<T>, pool: multiset<T>, k: nat, score: T -> real) {
    && best <= pool
    && |best| == Smaller(k, |pool|)
    && forall x, y :: x in pool - best && y in best ==> score(x) <= score(y)
  }

  lemma SameSizeSubset<T>(a: multiset<T>, b: multiset<T>)
    requires a <= b && |a| == |b|
    ensures a == b
  {
    assert b == a + (b - a);
  }

  /** Cutting one part of the pool to its own best k first loses nothing. */
  lemma CutFirst<T(!new)>(cut: multiset<T>, part: multiset<T>, rest: multiset<T>,
                          best: multiset<T>, k: nat, score: T -> real)
    requires Best(cut, part, k, score)
    requires Best(best, cut + rest, k, score)
    ensures Best(best, part + rest, k, score)
  {
    assert part == cut + (part - cut);
    forall x, y | x in (part + rest) - best && y in best
      ensures score(x) <= score(y)
    {
      if x !in (cut + rest) - best {
        // x was dropped by the first cut, so that cut was full and so is best.
        assert x in part - cut;
        assert |cut| == k == |best|;
        if score(y) < score(x) {
          assert y !in cut;
          if cut <= best {
            SameSizeSubset(cut, best);
          }
          var z :| z in cut && cut[z] > best[z];
          assert false;
        }
      }
    }
  }
}
