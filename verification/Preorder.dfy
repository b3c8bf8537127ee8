/** When the board's listing is the plain preorder of the reply tree.

    The anchor tree has at most two edges out of an article: to its first child and to its next
    sibling. The board walks the larger of the two first, the preorder walks the child first, and
    that is the whole difference. */
module Preorder {
  import opened ThreadOrder

  // Preorder of the reply tree below `v`, children in arrival order.
  function Pre(P: seq<int>, v: nat): seq<int>
    requires Forest(P) && v < |P|
    decreases |P| - v, |P| + 1
  {
    [v] + PreFrom(P, v, v + 1)
  }

  // The preorders of the children of `v` that are at least `k`.
  function PreFrom(P: seq<int>, v: nat, k: nat): seq<int>
    requires Forest(P) && v < k <= |P|
    decreases |P| - v, |P| - k
  {
    if k == |P| then []
    else if P[k] == v then Pre(P, k) + PreFrom(P, v, k + 1)
    else PreFrom(P, v, k + 1)
  }

  function PreForest(P: seq<int>, k: nat): seq<int>
    requires Forest(P) && k <= |P|
  {
    if k == 0 then []
    else if P[k - 1] == -1 then PreForest(P, k - 1) + Pre(P, k - 1)
    else PreForest(P, k - 1)
  }

  // The first article from `k` on whose parent is `p`; |P| if there is none.
  function NextOf(P: seq<int>, p: int, k: nat): (c: nat)
    requires k <= |P|
    ensures k <= c <= |P|
    ensures c < |P| ==> P[c] == p
    ensures forall j :: k <= j < c ==> P[j] != p
    decreases |P| - k
  {
    if k == |P| || P[k] == p then k else NextOf(P, p, k + 1)
  }

  function FirstChild(P: seq<int>, v: nat): (c: nat)
    requires v < |P|
    ensures v < c <= |P|
  {
    NextOf(P, v, v + 1)
  }

  // Posts count as having no siblings.
  function NextSibling(P: seq<int>, v: nat): (c: nat)
    requires v < |P|
    ensures v < c <= |P|
  {
    if P[v] == -1 then |P| else NextOf(P, P[v], v + 1)
  }

  // If reply `c` has both a first child and a next sibling, the child arrived last.
  ghost predicate Settled(P: seq<int>, c: nat)
    requires c < |P|
  {
    FirstChild(P, c) < |P| && NextSibling(P, c) < |P| ==> NextSibling(P, c) < FirstChild(P, c)
  }

  lemma AnchoredAt(P: seq<int>, v: nat, k: nat)
    requires Forest(P) && v < k < |P|
    ensures Anchors(P)[k] == v <==> k == FirstChild(P, v) || k == NextSibling(P, v)
  {
    var p := P[k];
    if p != -1 {
      var c := LatestChild(P, p, k);
      assert forall j :: c < j < k && 0 <= j ==> P[j] != p;
    }
  }

  function Walk(A: seq<int>, x: nat, k: nat): seq<int>
    requires Forest(A) && k <= |A|
  {
    if x < k then Dfs(A, x) else []
  }

  lemma {:induction false} NoBranch(A: seq<int>, v: nat, lo: nat, hi: nat)
    requires Forest(A) && v < lo <= hi <= |A|
    requires forall j :: lo <= j < hi ==> A[j] != v
    ensures DfsBelow(A, v, hi) == DfsBelow(A, v, lo)
    decreases hi
  {
    if lo < hi {
      NoBranch(A, v, lo, hi - 1);
    }
  }

  // Below `v` the walk takes the branch at `f` and what is left under `f`.
  lemma LastBranch(A: seq<int>, v: nat, f: nat, hi: nat)
    requires Forest(A) && v < f < hi <= |A| && A[f] == v
    requires forall j :: f < j < hi ==> A[j] != v
    ensures DfsBelow(A, v, hi) == Dfs(A, f) + DfsBelow(A, v, f)
  {
    NoBranch(A, v, f + 1, hi);
  }

  // The walk below `v` when its anchor-children are `s` and `f`, as far as they exist.
  lemma TwoBranches(A: seq<int>, v: nat, f: nat, s: nat)
    requires Forest(A) && v < |A| && v < s < f
    requires forall j :: v < j < |A| ==> (A[j] == v <==> j == f || j == s)
    ensures DfsBelow(A, v, |A|) == Walk(A, f, |A|) + Walk(A, s, |A|)
  {
    var hi := if f < |A| then f else |A|;
    if f < |A| {
      LastBranch(A, v, f, |A|);
    }
    if s < |A| {
      LastBranch(A, v, s, hi);
      NoBranch(A, v, v + 1, s);
    } else {
      NoBranch(A, v, v + 1, hi);
    }
  }

  lemma DfsSplit(P: seq<int>, v: nat)
    requires Forest(P) && v < |P|
    ensures var A, f, s := Anchors(P), FirstChild(P, v), NextSibling(P, v);
            Dfs(A, v) == [v] + if s < f then Walk(A, f, |P|) + Walk(A, s, |P|) else Walk(A, s, |P|) + Walk(A, f, |P|)
  {
    var A, f, s := Anchors(P), FirstChild(P, v), NextSibling(P, v);
    forall j | v < j < |A| ensures A[j] == v <==> j == f || j == s {
      AnchoredAt(P, v, j);
    }
    if s < f {
      TwoBranches(A, v, f, s);
    } else if f < s {
      TwoBranches(A, v, s, f);
    } else {
      NoBranch(A, v, v + 1, |A|);
    }
  }

  // Preorder of `v` followed by that of its later siblings.
  function PreOn(P: seq<int>, v: nat): seq<int>
    requires Forest(P) && v <= |P|
  {
    if v == |P| then []
    else if P[v] == -1 then Pre(P, v)
    else Pre(P, v) + PreFrom(P, P[v], v + 1)
  }

  lemma {:induction false} PreFromNext(P: seq<int>, v: nat, k: nat)
    requires Forest(P) && v < k <= |P|
    ensures PreFrom(P, v, k) == PreOn(P, NextOf(P, v, k))
    decreases |P| - k
  {
    if k < |P| && P[k] != v {
      PreFromNext(P, v, k + 1);
    }
  }

  lemma PreSplit(P: seq<int>, v: nat)
    requires Forest(P) && v < |P|
    ensures Pre(P, v) == [v] + PreOn(P, FirstChild(P, v))
  {
    PreFromNext(P, v, v + 1);
  }

  lemma PreOnSplit(P: seq<int>, v: nat)
    requires Forest(P) && v < |P|
    ensures PreOn(P, v) == [v] + PreOn(P, FirstChild(P, v)) + PreOn(P, NextSibling(P, v))
  {
    PreSplit(P, v);
    var rest := PreOn(P, NextSibling(P, v));
    if P[v] == -1 {
      assert rest == [];
    } else {
      PreFromNext(P, P[v], v + 1);
      assert PreOn(P, v) == Pre(P, v) + rest;
    }
  }

  lemma {:induction false} SameLength(P: seq<int>, v: nat)
    requires Forest(P) && v <= |P|
    ensures |Walk(Anchors(P), v, |P|)| == |PreOn(P, v)|
    decreases |P| - v
  {
    if v < |P| {
      DfsSplit(P, v);
      PreOnSplit(P, v);
      SameLength(P, FirstChild(P, v));
      SameLength(P, NextSibling(P, v));
    }
  }

  ghost predicate SettledBelow(P: seq<int>, v: nat)
    requires v <= |P|
    decreases |P| - v
  {
    v < |P| ==>
      && Settled(P, v)
      && SettledBelow(P, FirstChild(P, v))
      && SettledBelow(P, NextSibling(P, v))
  }

  lemma ConcatSame(a: seq<int>, b: seq<int>, c: seq<int>, d: seq<int>)
    requires |a| == |c|
    ensures a + b == c + d <==> a == c && b == d
  {
    if a + b == c + d {
      assert a == (a + b)[..|a|] && b == (a + b)[|a|..];
      assert c == (c + d)[..|c|] && d == (c + d)[|c|..];
    }
  }

  // Two walks and two preorders put together, `wf` and `pf` of the child, `ws` and `ps` of the sibling.
  lemma Branches(v: int, wf: seq<int>, ws: seq<int>, pf: seq<int>, ps: seq<int>, childFirst: bool)
    requires |wf| == |pf| && |ws| == |ps|
    requires !childFirst ==> wf == [] || ws == [] || ws[0] != pf[0]
    ensures [v] + (if childFirst then wf + ws else ws + wf) == [v] + pf + ps
            <==> (childFirst || wf == [] || ws == []) && wf == pf && ws == ps
  {
    assert [v] + pf + ps == [v] + (pf + ps);
    ConcatSame([v], if childFirst then wf + ws else ws + wf, [v], pf + ps);
    ConcatSame(wf, ws, pf, ps);
    if !childFirst && wf != [] && ws != [] {
      assert (ws + wf)[0] == ws[0] && (pf + ps)[0] == pf[0];
    }
  }

  lemma StartsAt(P: seq<int>, v: nat)
    requires Forest(P) && v < |P|
    ensures Walk(Anchors(P), v, |P|) != [] && Walk(Anchors(P), v, |P|)[0] == v
    ensures PreOn(P, v) != [] && PreOn(P, v)[0] == v
  {
  }

  lemma {:induction false} WalkIsPreorder(P: seq<int>, v: nat)
    requires Forest(P) && v <= |P|
    ensures Walk(Anchors(P), v, |P|) == PreOn(P, v) <==> SettledBelow(P, v)
    decreases |P| - v
  {
    if v < |P| {
      var A, f, s := Anchors(P), FirstChild(P, v), NextSibling(P, v);
      WalkIsPreorder(P, f);
      WalkIsPreorder(P, s);
      SameLength(P, f);
      SameLength(P, s);
      DfsSplit(P, v);
      PreOnSplit(P, v);
      var wf, ws, pf, ps := Walk(A, f, |P|), Walk(A, s, |P|), PreOn(P, f), PreOn(P, s);
      if f < |P| {
        StartsAt(P, f);
      }
      if s < |P| {
        StartsAt(P, s);
      }
      Branches(v, wf, ws, pf, ps, s < f);
    }
  }

  lemma {:induction false} SettledDown(P: seq<int>, r: nat, c: nat)
    requires Forest(P) && r < |P| && c < |P| && P[r] == -1 && Root(P, c) == r
    requires SettledBelow(P, r)
    ensures SettledBelow(P, c)
    decreases c
  {
    if c != r {
      var a := Anchors(P)[c];
      assert a != P[c] ==> Root(P, a) == Root(P, P[c]);
      SettledDown(P, r, a);
      AnchoredAt(P, a, c);
    }
  }

  lemma {:induction false} SettledUp(P: seq<int>, r: nat, c: nat)
    requires Forest(P) && r < |P| && c <= |P| && (c < |P| ==> Root(P, c) == r)
    requires forall d :: 0 <= d < |P| && Root(P, d) == r ==> Settled(P, d)
    ensures SettledBelow(P, c)
    decreases |P| - c
  {
    if c < |P| {
      SettledUp(P, r, FirstChild(P, c));
      SettledUp(P, r, NextSibling(P, c));
    }
  }

  // The thread started by post `r` is listed in preorder of its reply tree.
  ghost predicate InPreorder(P: seq<int>, A: seq<int>, r: nat)
    requires Forest(P) && Forest(A) && r < |P| && r < |A|
  {
    Dfs(A, r) == Pre(P, r)
  }

  /** A thread is listed in preorder exactly when all its replies are settled. */
  lemma ThreadIsPreorder(P: seq<int>, r: nat)
    requires Forest(P) && r < |P| && P[r] == -1
    ensures InPreorder(P, Anchors(P), r) <==> forall c :: 0 <= c < |P| && Root(P, c) == r ==> Settled(P, c)
  {
    WalkIsPreorder(P, r);
    if SettledBelow(P, r) {
      forall c | 0 <= c < |P| && Root(P, c) == r ensures Settled(P, c) {
        SettledDown(P, r, c);
      }
    }
    if forall c :: 0 <= c < |P| && Root(P, c) == r ==> Settled(P, c) {
      SettledUp(P, r, r);
    }
  }

  // `A` has the posts of `P` as roots and walks each of their threads in full.
  ghost predicate SameThreads(P: seq<int>, A: seq<int>) {
    && Forest(P) && Forest(A) && |A| == |P|
    && (forall r :: 0 <= r < |P| ==> (A[r] == -1 <==> P[r] == -1))
    && (forall r :: 0 <= r < |P| && P[r] == -1 ==> SameThread(P, A, r))
  }

  ghost predicate SameThread(P: seq<int>, A: seq<int>, r: nat)
    requires Forest(P) && Forest(A) && r < |P| && r < |A|
  {
    |Dfs(A, r)| == |Pre(P, r)|
  }

  lemma {:induction false} ForestLength(P: seq<int>, A: seq<int>, k: nat)
    requires SameThreads(P, A) && k <= |P|
    ensures |DfsForest(A, k)| == |PreForest(P, k)|
  {
    if k > 0 {
      ForestLength(P, A, k - 1);
      assert P[k - 1] == -1 ==> SameThread(P, A, k - 1);
    }
  }

  ghost predicate AllInPreorder(P: seq<int>, A: seq<int>, k: nat)
    requires Forest(P) && Forest(A) && k <= |P| && k <= |A|
  {
    forall r :: 0 <= r < k && P[r] == -1 ==> InPreorder(P, A, r)
  }

  lemma {:induction false} ForestIsPreorder(P: seq<int>, A: seq<int>, k: nat)
    requires SameThreads(P, A) && k <= |P|
    ensures DfsForest(A, k) == PreForest(P, k) <==> AllInPreorder(P, A, k)
  {
    if k > 0 {
      ForestIsPreorder(P, A, k - 1);
      assert AllInPreorder(P, A, k)
             <==> AllInPreorder(P, A, k - 1) && (P[k - 1] == -1 ==> InPreorder(P, A, k - 1));
      if P[k - 1] == -1 {
        ForestLength(P, A, k - 1);
        ConcatSame(DfsForest(A, k - 1), Dfs(A, k - 1), PreForest(P, k - 1), Pre(P, k - 1));
        assert DfsForest(A, k) == DfsForest(A, k - 1) + Dfs(A, k - 1);
        assert PreForest(P, k) == PreForest(P, k - 1) + Pre(P, k - 1);
      } else {
        assert DfsForest(A, k) == DfsForest(A, k - 1);
        assert PreForest(P, k) == PreForest(P, k - 1);
      }
    }
  }

  /** The whole board is listed in preorder if and only if every reply that has both a first child
      and a next sibling got its first child after that sibling arrived. */
  lemma ListingIsPreorder(P: seq<int>)
    requires Forest(P)
    ensures InsertOrder(Anchors(P)) == PreForest(P, |P|)
            <==> forall c :: 0 <= c < |P| ==> Settled(P, c)
  {
    var A := Anchors(P);
    InsertOrderIsDfs(A);
    forall r | 0 <= r < |P| && P[r] == -1
      ensures SameThread(P, A, r)
      ensures InPreorder(P, A, r) <==> forall c :: 0 <= c < |P| && Root(P, c) == r ==> Settled(P, c)
    {
      SameLength(P, r);
      ThreadIsPreorder(P, r);
    }
    ForestIsPreorder(P, A, |P|);
    if AllInPreorder(P, A, |P|) {
      forall c | 0 <= c < |P| ensures Settled(P, c) {
        assert InPreorder(P, A, Root(P, c));
      }
    }
  }

  /** It is not always preorder: post 0, replies 1 and 3 to it, reply 2 to 1. Article 1 got its
      first child before its next sibling. */
  lemma NotAlwaysPreorder()
    ensures var P := [-1, 0, 1, 0];
            Forest(P) && !Settled(P, 1) && InsertOrder(Anchors(P)) != PreForest(P, |P|)
  {
    var P := [-1, 0, 1, 0];
    assert FirstChild(P, 1) == 2;
    assert NextSibling(P, 1) == 3;
    ListingIsPreorder(P);
  }
}
