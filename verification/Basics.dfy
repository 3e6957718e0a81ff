/** Machine integers, the optional value, and a few facts shared by every component. */
module Basics {

  type byte = b: int | 0 <= b < 0x100
  type uint16 = w: int | 0 <= w < 0x1_0000
  type uint32 = w: int | 0 <= w < 0x1_0000_0000

  datatype Option<+T> = None | Some(value: T)

  lemma Scale(x: int, y: int, n: nat)
    requires x <= y
    ensures n * x <= n * y
  {
  }

  lemma Subset<T>(x: set<T>, y: set<T>)
    requires x <= y
    ensures |x| <= |y|
    decreases |x|
  {
    if p :| p in x { Subset(x - {p}, y - {p}); }
  }

  ghost predicate Distinct(xs: seq<nat>) {
    forall i, j | 0 <= i < j < |xs| :: xs[i] != xs[j]
  }

  lemma {:induction false} PigeonHole(xs: seq<nat>, n: nat)
    requires Distinct(xs) && forall x <- xs :: x < n
    ensures |xs| <= n
    decreases n
  {
    if xs != [] {
      assert xs[0] in xs;
      if k :| 0 <= k < |xs| && xs[k] == n - 1 {
        var ys := xs[..k] + xs[k + 1..];
        forall y <- ys ensures y < n - 1 {
          assert y in xs && y != xs[k];
        }
        PigeonHole(ys, n - 1);
      } else {
        PigeonHole(xs, n - 1);
      }
    }
  }
}
