/** Sizes of finite sets, and how much two of them overlap. */
module Sets {
  lemma SizeOfUnion<T>(a: set<T>, b: set<T>)
    ensures |a + b| == |a| + |b| - |a * b|
  {
    assert a + b == a + (b - a);
    assert b == (b - a) + a * b;
  }

  lemma {:induction false} SubsetSize<T>(a: set<T>, b: set<T>)
    requires a <= b
    ensures |a| <= |b| && (|a| == |b| ==> a == b)
  {
    if a != {} {
      var x :| x in a;
      SubsetSize(a - {x}, b - {x});
    }
  }

  /** The shared part of two sets, not both empty, as a fraction of the whole. */
  lemma Fraction<T>(a: set<T>, b: set<T>)
    requires a + b != {}
    ensures |a + b| > 0
    ensures var part := |a * b| as real / |a + b| as real;
            && 0.0 <= part <= 1.0
            && part * |a + b| as real == |a * b| as real
            && (part == 0.0 <==> a !! b)
            && (part == 1.0 <==> a == b)
  {
    var x :| x in a + b;
    assert a * b <= a + b;
    SubsetSize(a * b, a + b);
    var i, u := |a * b| as real, |a + b| as real;
    assert a !! b <==> a * b == {};
    if a * b == a + b {
      assert forall w :: w in a <==> w in b;
      assert a == b;
    }
    if a == b { assert a * b == a + b; }
    Ratio(i, u);
  }

  lemma Ratio(i: real, u: real)
    requires 0.0 <= i <= u && u > 0.0
    ensures 0.0 <= i / u <= 1.0 && i / u * u == i && (i / u == 1.0 <==> i == u) && (i / u == 0.0 <==> i == 0.0)
  {
  }

  lemma Part(i: nat, u: nat, part: real)
    requires i <= u && u > 0 && part == i as real / u as real
    ensures 0.0 <= part <= 1.0
    ensures (part == 1.0 <==> i == u) && (part == 0.0 <==> i == 0)
  {
    Ratio(i as real, u as real);
  }
}
