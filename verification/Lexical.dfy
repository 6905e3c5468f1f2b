/** The order Python's `sorted` puts strings in: character by character. */
module Lexical {

  predicate Lt(a: string, b: string) {
    b != [] && (a == [] || a[0] < b[0] || (a[0] == b[0] && Lt(a[1..], b[1..])))
  }

  lemma {:induction false} Irreflexive(a: string)
    ensures !Lt(a, a)
  {
    if a != [] {
      Irreflexive(a[1..]);
    }
  }

  lemma {:induction false} Transitive(a: string, b: string, c: string)
    requires Lt(a, b) && Lt(b, c)
    ensures Lt(a, c)
  {
    if a != [] && a[0] == b[0] && b[0] == c[0] {
      Transitive(a[1..], b[1..], c[1..]);
    }
  }

  lemma {:induction false} Total(a: string, b: string)
    ensures Lt(a, b) || Lt(b, a) || a == b
  {
    if a != [] && b != [] && a[0] == b[0] {
      Total(a[1..], b[1..]);
      assert a == [a[0]] + a[1..] && b == [b[0]] + b[1..];
    }
  }

  lemma Asymmetric(a: string, b: string)
    requires Lt(a, b)
    ensures !Lt(b, a) && a != b
  {
    Irreflexive(a);
    if Lt(b, a) {
      Transitive(a, b, a);
    }
  }

  /** They agree up to `k`, and there `a` ends or has the lower character. */
  predicate LowerAt(a: string, b: string, k: nat) {
    && k <= |a| && k < |b| && a[..k] == b[..k]
    && (k == |a| || a[k] < b[k])
  }

  /** The order of strings by code point, a prefix before what it begins. */
  lemma {:induction false} LtMeans(a: string, b: string)
    ensures Lt(a, b) <==> exists k: nat :: LowerAt(a, b, k)
  {
    forall k: nat | LowerAt(a, b, k) && k > 0 ensures a[0] == b[0] {
      assert a[..k][0] == a[0] && b[..k][0] == b[0];
    }
    if a != [] && b != [] && a[0] == b[0] {
      LtMeans(a[1..], b[1..]);
      if k: nat :| LowerAt(a[1..], b[1..], k) {
        assert a[..k + 1] == [a[0]] + a[1..][..k] && b[..k + 1] == [b[0]] + b[1..][..k];
        assert LowerAt(a, b, k + 1);
      }
      if k: nat :| LowerAt(a, b, k) {
        assert k > 0;
        assert a[1..][..k - 1] == a[..k][1..] && b[1..][..k - 1] == b[..k][1..];
        assert LowerAt(a[1..], b[1..], k - 1);
      }
    } else {
      assert b != [] && (a == [] || a[0] < b[0]) ==> LowerAt(a, b, 0);
    }
  }
}
