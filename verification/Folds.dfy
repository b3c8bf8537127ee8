/** Feeding a string of symbols into a machine one at a time, for any machine. */
module Folds {
  function Fold<T, B>(step: (T, B) -> T, s: T, u: seq<B>): T {
    if u == [] then s else step(Fold(step, s, u[..|u| - 1]), u[|u| - 1])
  }

  lemma {:induction false} FoldConcat<T, B>(step: (T, B) -> T, s: T, u: seq<B>, v: seq<B>)
    ensures Fold(step, s, u + v) == Fold(step, Fold(step, s, u), v)
    decreases |v|
  {
    if v == [] {
      assert u + v == u;
    } else {
      FoldConcat(step, s, u, v[..|v| - 1]);
      assert (u + v)[..|u + v| - 1] == u + v[..|v| - 1];
    }
  }

  lemma FoldOneMore<T, B>(step: (T, B) -> T, s: T, u: seq<B>, x: B)
    ensures Fold(step, s, u + [x]) == step(Fold(step, s, u), x)
  {
    assert (u + [x])[..|u|] == u;
  }

  lemma FoldOneFirst<T, B>(step: (T, B) -> T, s: T, u: seq<B>)
    requires u != []
    ensures Fold(step, s, u) == Fold(step, step(s, u[0]), u[1..])
  {
    FoldConcat(step, s, u[..1], u[1..]);
    FoldOneMore(step, s, [], u[0]);
    assert u[..1] == [] + [u[0]] && u == u[..1] + u[1..];
  }

  // What holds at the start and passes from each bit to the next holds at the end.
  lemma {:induction false} FoldKeeps<T, B>(step: (T, B) -> T, s: T, u: seq<B>, n: nat, inv: (nat, T) -> bool)
    requires inv(0, s) && n <= |u|
    requires forall k: nat, x: T :: k < |u| && inv(k, x) ==> inv(k + 1, step(x, u[k]))
    ensures inv(n, Fold(step, s, u[..n]))
    decreases n
  {
    if n > 0 {
      FoldKeeps(step, s, u, n - 1, inv);
      assert u[..n][..n - 1] == u[..n - 1];
    }
  }

  // Two machines of one kind, fed `u` and `v`, and a third that is fed where those differ.
  lemma {:induction false} FoldRelates<T>(step: (T, bool) -> T, x: T, y: T, z: T,
                                          u: seq<bool>, v: seq<bool>, e: seq<bool>, r: (T, T, T) -> bool)
    requires |u| == |v| == |e| && r(x, y, z)
    requires forall i :: 0 <= i < |u| ==> e[i] == (u[i] != v[i])
    requires forall a: T, b: T, c: T, p: bool, q: bool :: r(a, b, c) ==> r(step(a, p), step(b, q), step(c, p != q))
    ensures r(Fold(step, x, u), Fold(step, y, v), Fold(step, z, e))
    decreases |u|
  {
    if u != [] {
      var n := |u| - 1;
      FoldRelates(step, x, y, z, u[..n], v[..n], e[..n], r);
    }
  }

  function Iterate<T>(f: T -> T, x: T, n: nat): T {
    if n == 0 then x else f(Iterate(f, x, n - 1))
  }

  lemma {:induction false} IterateKeeps<T>(f: T -> T, x: T, n: nat, inv: (nat, T) -> bool)
    requires inv(0, x)
    requires forall k: nat, y: T :: k < n && inv(k, y) ==> inv(k + 1, f(y))
    ensures inv(n, Iterate(f, x, n))
  {
    if n > 0 {
      IterateKeeps(f, x, n - 1, inv);
    }
  }
}
