/** The order of strings. */
module StringOrder {
  import Seqs

  /** Character by character, a proper prefix first: how Rust compares strings. */
  predicate Less(a: string, b: string) {
    b != [] && (a == [] || a[0] < b[0] || (a[0] == b[0] && Less(a[1..], b[1..])))
  }

  lemma {:induction false} LessAsymmetric(a: string, b: string)
    ensures !(Less(a, b) && Less(b, a))
  {
    if a != [] && b != [] { LessAsymmetric(a[1..], b[1..]); }
  }

  lemma {:induction false} LessTotal(a: string, b: string)
    ensures a == b || Less(a, b) || Less(b, a)
  {
    if a != [] && b != [] {
      LessTotal(a[1..], b[1..]);
      Seqs.HeadTail(a);
      Seqs.HeadTail(b);
    }
  }

  lemma {:induction false} LessTransitive(a: string, b: string, c: string)
    requires Less(a, b) && Less(b, c)
    ensures Less(a, c)
  {
    if a != [] && a[0] == b[0] == c[0] { LessTransitive(a[1..], b[1..], c[1..]); }
  }

  /** The strings agree before `k`, and there `a` ends or has the smaller character. */
  predicate PartAt(a: string, b: string, k: nat) {
    && k <= |a| && k < |b| && (forall i | 0 <= i < k :: a[i] == b[i])
    && (k == |a| || a[k] < b[k])
  }

  lemma PartsFurtherOn(a: string, b: string, k: nat)
    requires a != [] && b != [] && a[0] == b[0]
    ensures PartAt(a[1..], b[1..], k) <==> PartAt(a, b, k + 1)
  {
    if PartAt(a[1..], b[1..], k) {
      forall i | 0 <= i < k + 1 ensures a[i] == b[i] {
        if i > 0 { assert a[1..][i - 1] == b[1..][i - 1]; }
      }
    }
    if PartAt(a, b, k + 1) {
      forall i | 0 <= i < k ensures a[1..][i] == b[1..][i] { assert a[i + 1] == b[i + 1]; }
    }
  }

  /** A string comes first exactly if it ends, or has the smaller character, where the two part. */
  lemma {:induction false} LessIff(a: string, b: string)
    ensures Less(a, b) <==> exists k: nat :: PartAt(a, b, k)
  {
    if a == [] || b == [] || a[0] != b[0] {
      if Less(a, b) { assert PartAt(a, b, 0); }
    } else {
      LessIff(a[1..], b[1..]);
      if Less(a, b) {
        var k: nat :| PartAt(a[1..], b[1..], k);
        PartsFurtherOn(a, b, k);
      }
      if k: nat :| PartAt(a, b, k) {
        assert k > 0;
        PartsFurtherOn(a, b, k - 1);
      }
    }
  }
}
