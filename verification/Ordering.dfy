/** Lexicographic order on rating sequences of equal length. */
module Ordering {

  ghost predicate LexLess(a: seq<nat>, b: seq<nat>)
    requires |a| == |b|
  {
    |a| > 0 && (a[0] < b[0] || (a[0] == b[0] && LexLess(a[1..], b[1..])))
  }

  lemma {:induction false} LexTotal(a: seq<nat>, b: seq<nat>)
    requires |a| == |b|
    ensures LexLess(a, b) || LexLess(b, a) || a == b
    ensures !(LexLess(a, b) && LexLess(b, a))
    ensures a == b ==> !LexLess(a, b)
  {
    if |a| > 0 {
      LexTotal(a[1..], b[1..]);
      assert a == [a[0]] + a[1..] && b == [b[0]] + b[1..];
    }
  }

  lemma {:induction false} LexTransitive(a: seq<nat>, b: seq<nat>, c: seq<nat>)
    requires |a| == |b| == |c|
    requires LexLess(a, b) && LexLess(b, c)
    ensures LexLess(a, c)
  {
    if a[0] == b[0] && b[0] == c[0] {
      LexTransitive(a[1..], b[1..], c[1..]);
    }
  }

  /** The first difference decides. */
  lemma {:induction false} LexAt(a: seq<nat>, b: seq<nat>, k: nat)
    requires |a| == |b| && k < |a|
    requires forall j | 0 <= j < k :: a[j] == b[j]
    requires a[k] < b[k]
    ensures LexLess(a, b)
  {
    if k > 0 {
      LexAt(a[1..], b[1..], k - 1);
    }
  }

  lemma {:induction false} LexDiffers(a: seq<nat>, b: seq<nat>) returns (k: nat)
    requires |a| == |b| && LexLess(a, b)
    ensures k < |a| && a[k] < b[k] && forall j | 0 <= j < k :: a[j] == b[j]
  {
    if a[0] < b[0] {
      k := 0;
    } else {
      k := LexDiffers(a[1..], b[1..]);
      forall j | 0 <= j < k + 1
        ensures a[j] == b[j]
      {
        assert j > 0 ==> a[1..][j - 1] == b[1..][j - 1];
      }
      k := k + 1;
    }
  }
}
