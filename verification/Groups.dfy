/** An abstract abelian group, which stands for the points of a curve, and integer multiples in it. */
module Groups {

  datatype Group<!G> = Group(zero: G, add: (G, G) -> G, neg: G -> G)

  /** Names three elements, so that a law is applied where a proof asks for it. */
  ghost predicate Chosen<G>(a: G, b: G, c: G) { true }

  ghost predicate Abelian<G(!new)>(g: Group<G>) {
    forall a, b, c {:trigger Chosen(a, b, c)} :: Chosen(a, b, c) ==>
      && g.add(g.add(a, b), c) == g.add(a, g.add(b, c))
      && g.add(a, b) == g.add(b, a)
      && g.add(a, g.zero) == a
      && g.add(a, g.neg(a)) == g.zero
  }

  lemma Assoc<G(!new)>(g: Group<G>, a: G, b: G, c: G)
    requires Abelian(g)
    ensures g.add(g.add(a, b), c) == g.add(a, g.add(b, c))
  {
    assert Chosen(a, b, c);
  }

  lemma Comm<G(!new)>(g: Group<G>, a: G, b: G)
    requires Abelian(g)
    ensures g.add(a, b) == g.add(b, a)
  {
    assert Chosen(a, b, a);
  }

  lemma Unit<G(!new)>(g: Group<G>, a: G)
    requires Abelian(g)
    ensures g.add(a, g.zero) == a && g.add(g.zero, a) == a && g.add(a, g.neg(a)) == g.zero
  {
    assert Chosen(a, g.zero, a);
  }

  /** k times p. */
  ghost function Times<G>(g: Group<G>, k: int, p: G): G
    decreases if k < 0 then -k else k
  {
    if k == 0 then g.zero
    else if k > 0 then g.add(Times(g, k - 1, p), p)
    else g.add(Times(g, k + 1, p), g.neg(p))
  }

  lemma TimesNext<G(!new)>(g: Group<G>, k: int, p: G)
    requires Abelian(g)
    ensures Times(g, k + 1, p) == g.add(Times(g, k, p), p)
  {
    if k < 0 {
      var t := Times(g, k + 1, p);
      Assoc(g, t, g.neg(p), p);
      Comm(g, p, g.neg(p));
      Unit(g, p);
      Unit(g, t);
    }
  }

  lemma {:induction false} TimesAdd<G(!new)>(g: Group<G>, j: int, k: int, p: G)
    requires Abelian(g)
    ensures Times(g, j + k, p) == g.add(Times(g, j, p), Times(g, k, p))
    decreases if k < 0 then -k else k
  {
    var t := Times(g, j, p);
    if k == 0 {
      Unit(g, t);
    } else if k > 0 {
      TimesAdd(g, j, k - 1, p);
      TimesNext(g, j + k - 1, p);
      Assoc(g, t, Times(g, k - 1, p), p);
    } else {
      TimesAdd(g, j, k + 1, p);
      TimesNext(g, j + k, p);
      var u := Times(g, j + k, p);
      Assoc(g, t, Times(g, k + 1, p), g.neg(p));
      Assoc(g, u, p, g.neg(p));
      Unit(g, p);
      Unit(g, u);
    }
  }

  lemma InverseUnique<G(!new)>(g: Group<G>, a: G, b: G)
    requires Abelian(g) && g.add(a, b) == g.zero
    ensures b == g.neg(a)
  {
    Unit(g, a);
    Unit(g, b);
    Unit(g, g.neg(a));
    Assoc(g, b, a, g.neg(a));
    Comm(g, a, b);
  }

  lemma TimesNeg<G(!new)>(g: Group<G>, k: int, p: G)
    requires Abelian(g)
    ensures Times(g, -k, p) == g.neg(Times(g, k, p))
  {
    TimesAdd(g, k, -k, p);
    InverseUnique(g, Times(g, k, p), Times(g, -k, p));
  }

  lemma {:induction false} TimesOfZero<G(!new)>(g: Group<G>, k: int)
    requires Abelian(g)
    ensures Times(g, k, g.zero) == g.zero
    decreases if k < 0 then -k else k
  {
    Unit(g, g.zero);
    InverseUnique(g, g.zero, g.zero);
    if k > 0 {
      TimesOfZero(g, k - 1);
    } else if k < 0 {
      TimesOfZero(g, k + 1);
    }
  }

  /** Multiples that agree differ by a multiple that vanishes. */
  lemma SameMultiple<G(!new)>(g: Group<G>, j: int, k: int, p: G)
    requires Abelian(g) && Times(g, j, p) == Times(g, k, p)
    ensures Times(g, j - k, p) == g.zero
  {
    TimesAdd(g, j, -k, p);
    TimesNeg(g, k, p);
    Unit(g, Times(g, k, p));
  }
}
