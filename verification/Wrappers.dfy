/** Option, used for Go's nil and for answers that may be missing. */
module Wrappers {
  datatype Option<+T> = None | Some(value: T)
}

/** Sizes of sets that change by one element. */
module Cardinality {
  function One(b: bool): int { if b then 1 else 0 }

  lemma CardinalityStep<T>(was: set<T>, now: set<T>, t: T)
    requires was - {t} == now - {t}
    ensures |now| == |was| - One(t in was) + One(t in now)
  {
    assert was == if t in was then (was - {t}) + {t} else was - {t};
    assert now == if t in now then (now - {t}) + {t} else now - {t};
  }

  lemma SubsetSize<T>(a: set<T>, b: set<T>)
    requires a <= b
    ensures |a| <= |b|
  {
    assert b == a + (b - a);
  }
}
