/** What several modules say about sequences, sets and numbers. */
module Lists {
  ghost predicate Distinct<T>(s: seq<T>) {
    forall i, j | 0 <= i < j < |s| :: s[i] != s[j]
  }

  /** The last element takes the place of the one removed. */
  function SwapRemove<T>(s: seq<T>, i: nat): (r: seq<T>)
    requires i < |s|
  {
    s[i := s[|s| - 1]][..|s| - 1]
  }

  lemma {:induction false} Subset<T>(a: set<T>, b: set<T>)
    requires a <= b
    ensures |a| <= |b|
  {
    if x :| x in a {
      Subset(a - {x}, b - {x});
    }
  }

  function Pow2(n: nat): (p: nat)
    ensures p >= 1
  {
    if n == 0 then 1 else 2 * Pow2(n - 1)
  }

  lemma Quotient(x: nat, w: nat, q: nat, r: nat)
    requires x == w * q + r && r < w
    ensures x / w == q
  {
    var d := x / w - q;
    assert x == w * (x / w) + x % w;
    assert w * d == r - x % w;
    assert d >= 1 ==> w * d >= w;
    assert d <= -1 ==> w * d + w <= 0;
  }
}
