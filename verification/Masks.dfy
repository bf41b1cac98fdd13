/** ISP masks: one bit for each carrier. */
module Masks {

  /** The carriers of two users together. */
  function Join(a: bv32, b: bv32): bv32 {
    a | b
  }

  predicate Covers(mask: bv32, isps: bv32) {
    isps & mask == isps
  }

  lemma CoversJoin(mask: bv32, a: bv32, b: bv32)
    requires Covers(mask, a) && Covers(mask, b)
    ensures Covers(mask, Join(a, b))
  {
  }

  lemma CoversPart(mask: bv32, a: bv32, b: bv32)
    requires Covers(mask, Join(a, b))
    ensures Covers(mask, a)
  {
  }

  lemma JoinCommutes(a: bv32, b: bv32)
    ensures Join(a, b) == Join(b, a)
  {
  }

  lemma SameMask(a: bv32)
    ensures Join(a, a) == a && Covers(a, a)
  {
  }

  /** A mask covers two users together exactly when it covers each of them. */
  lemma CoversBoth(mask: bv32, a: bv32, b: bv32)
    ensures Covers(mask, Join(a, b)) <==> Covers(mask, a) && Covers(mask, b)
  {
    hide Covers, Join;
    if Covers(mask, Join(a, b)) {
      CoversPart(mask, a, b);
      JoinCommutes(a, b);
      CoversPart(mask, b, a);
    }
    if Covers(mask, a) && Covers(mask, b) {
      CoversJoin(mask, a, b);
    }
  }
}
