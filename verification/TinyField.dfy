/** A field of four elements: the laws assumed of the block field have a model with a missed pivot. */
module TinyField {
  import opened Algebra
  import opened Gf128
  import opened Elimination

  /** a + b w, with w^2 = w + 1. */
  datatype Quad = Quad(a: bool, b: bool)

  const QZERO := Quad(false, false)
  const QONE := Quad(true, false)
  const QW := Quad(false, true)

  function Plus(x: Quad, y: Quad): Quad {
    Quad(x.a != y.a, x.b != y.b)
  }

  function Times(x: Quad, y: Quad): Quad {
    Quad((x.a && y.a) != (x.b && y.b), ((x.a && y.b) != (x.b && y.a)) != (x.b && y.b))
  }

  function QuadSpace(): Space<Quad, Quad> {
    Space(QZERO, QONE, Plus, Times, QZERO, Plus, Times)
  }

  lemma QuadFacts(k: Quad, l: Quad, m: Quad)
    ensures Plus(k, l) == Plus(l, k) && Plus(Plus(k, l), m) == Plus(k, Plus(l, m))
    ensures Plus(k, QZERO) == k && Plus(k, k) == QZERO
    ensures Times(k, l) == Times(l, k) && Times(Times(k, l), m) == Times(k, Times(l, m))
    ensures Times(k, QONE) == k && Times(k, Plus(l, m)) == Plus(Times(k, l), Times(k, m))
  {
    match k case Quad(a, b) =>
  }

  lemma QuadLaws()
    ensures Laws(QuadSpace())
  {
    hide Plus, Times;
    forall k: Quad, l: Quad, m: Quad
      ensures Plus(Plus(k, l), m) == Plus(k, Plus(l, m))
    {
      QuadFacts(k, l, m);
    }
    forall k: Quad, l: Quad
      ensures Plus(k, l) == Plus(l, k)
    {
      QuadFacts(k, l, l);
    }
    forall k: Quad
      ensures Plus(k, QZERO) == k && Plus(k, k) == QZERO && Times(k, QONE) == k
    {
      QuadFacts(k, k, k);
    }
    forall k: Quad, l: Quad
      ensures Times(k, l) == Times(l, k)
    {
      QuadFacts(k, l, l);
    }
    forall k: Quad, l: Quad, m: Quad
      ensures Times(Times(k, l), m) == Times(k, Times(l, m))
    {
      QuadFacts(k, l, m);
    }
    forall k: Quad, l: Quad, m: Quad
      ensures Times(k, Plus(l, m)) == Plus(Times(k, l), Times(k, m))
    {
      QuadFacts(k, l, m);
    }
    RegularFromRing(QuadSpace());
  }

  lemma {:induction false} CubeIsOne(x: Quad, k: nat)
    requires x != QZERO
    ensures Pow(QuadSpace(), x, 3 * k) == QONE
  {
    if k > 0 {
      CubeIsOne(x, k - 1);
      var s, e := QuadSpace(), 3 * (k - 1);
      assert Pow(s, x, e + 1) == Times(Pow(s, x, e), x);
      assert Pow(s, x, e + 2) == Times(Pow(s, x, e + 1), x);
      assert Pow(s, x, e + 3) == Times(Pow(s, x, e + 2), x);
    }
  }

  lemma {:induction false} TowerModThree(i: nat)
    requires i >= 1
    ensures Tower(i) % 3 == 1
  {
    hide Tower;
    TowerSquares(1);
    FirstTower();
    if i > 1 {
      TowerModThree(i - 1);
      SquareModThree(Tower(i - 1));
      TowerSquares(i);
    }
  }

  lemma FirstTower()
    ensures Tower(0) == 2
  {}

  lemma TowerSquares(i: nat)
    requires i >= 1
    ensures Tower(i) == Tower(i - 1) * Tower(i - 1)
  {}

  lemma SquareModThree(t: nat)
    requires t % 3 == 1
    ensures t * t % 3 == 1
  {
    var q := t / 3;
    assert t * t == (3 * q + 1) * t == 3 * (q * t) + t;
  }

  /** The assumed laws are satisfiable. */
  lemma QuadField()
    ensures FieldLaws(QuadSpace())
  {
    hide Tower, Laws, Pow, QuadSpace;
    QuadZeroOne();
    QuadLaws();
    TowerModThree(7);
    forall x: Quad | x != QZERO
      ensures Order(QuadSpace(), x) == QONE
    {
      OrderIsOne(x, Tower(7));
    }
  }

  lemma QuadZeroOne()
    ensures QuadSpace().zero == QZERO && QuadSpace().one == QONE
  {}

  lemma OrderIsOne(x: Quad, t: nat)
    requires x != QZERO && t % 3 == 1
    ensures Pow(QuadSpace(), x, t - 1) == QONE
  {
    hide Pow;
    CubeIsOne(x, t / 3);
    assert t - 1 == 3 * (t / 3);
  }

  /** Here is an invertible matrix for which the inversion returns the empty matrix. */
  lemma QuadMissesPivot()
    ensures InverseOf(QuadSpace(), [[QZERO, QW], [QW, QZERO]]).None?
    ensures !Singular(QuadSpace(), [[QZERO, QW], [QW, QZERO]], 2)
  {
    QuadField();
    MissedPivotExample(QuadSpace(), QW);
  }
}
