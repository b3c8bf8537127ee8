/** The order in which the bulletin board lists its articles, as a law about parent links alone.

    Article `i` has parent `P[i]`: -1 for a post, an earlier article for a reply. The database
    appends a post at the tail of its chain and splices a reply in right after its anchor: the
    parent's latest child so far, or the parent itself when it has none. Anchors form a forest of
    their own, and every law below is stated over it. */
module ThreadOrder {

  ghost predicate Forest(P: seq<int>) {
    forall i :: 0 <= i < |P| ==> -1 <= P[i] < i
  }

  // The latest article before `i` whose parent is `p`, or -1.
  function LatestChild(P: seq<int>, p: int, i: nat): (c: int)
    requires i <= |P|
    ensures -1 <= c < i
    ensures c >= 0 ==> P[c] == p
    ensures forall j :: c < j < i && 0 <= j ==> P[j] != p
  {
    if i == 0 then -1
    else if P[i - 1] == p then i - 1
    else LatestChild(P, p, i - 1)
  }

  // Where article `i` is spliced in: -1 stands for the tail of the chain.
  function Anchor(P: seq<int>, i: nat): (a: int)
    requires Forest(P) && i < |P|
    ensures -1 <= a < i
    ensures a == -1 <==> P[i] == -1
    ensures a >= 0 && a != P[i] ==> P[a] == P[i]
  {
    if P[i] == -1 then -1
    else
      var c := LatestChild(P, P[i], i);
      if c != -1 then c else P[i]
  }

  function Anchors(P: seq<int>): (A: seq<int>)
    requires Forest(P)
    ensures |A| == |P| && Forest(A)
    ensures forall i :: 0 <= i < |P| ==> A[i] == Anchor(P, i)
  {
    seq(|P|, i requires 0 <= i < |P| => Anchor(P, i))
  }

  lemma {:induction false} LatestChildPrefix(P: seq<int>, m: nat, p: int, i: nat)
    requires i <= m <= |P|
    ensures LatestChild(P[..m], p, i) == LatestChild(P, p, i)
  {
    if i > 0 {
      LatestChildPrefix(P, m, p, i - 1);
    }
  }

  lemma AnchorsPrefix(P: seq<int>, m: nat)
    requires Forest(P) && m <= |P|
    ensures Anchors(P[..m]) == Anchors(P)[..m]
  {
    forall i | 0 <= i < m
      ensures Anchor(P[..m], i) == Anchor(P, i)
    {
      LatestChildPrefix(P, m, P[i], i);
    }
  }

  // The anchor of a new article with parent `p`.
  function NewAnchor(P: seq<int>, p: int): (a: int)
    requires -1 <= p < |P|
    ensures -1 <= a < |P|
  {
    var c := LatestChild(P, p, |P|);
    if p == -1 then -1 else if c != -1 then c else p
  }

  lemma AnchorsGrow(P: seq<int>, p: int)
    requires Forest(P) && -1 <= p < |P|
    ensures Forest(P + [p]) && Anchors(P + [p]) == Anchors(P) + [NewAnchor(P, p)]
  {
    var Q, n := P + [p], |P|;
    assert Q[..n] == P && Q[n] == p;
    AnchorsPrefix(Q, n);
    LatestChildPrefix(Q, n, p, n);
    assert Anchors(Q)[..n] == Anchors(P);
  }

  // Insert `n` right after `a` (after every `a`, so that it distributes over concatenation).
  function Splice(s: seq<int>, a: int, n: int): seq<int> {
    if s == [] then []
    else (if s[0] == a then [a, n] else [s[0]]) + Splice(s[1..], a, n)
  }

  // The listing after all insertions, oldest first.
  function InsertOrder(A: seq<int>): seq<int>
    requires Forest(A)
  {
    if A == [] then []
    else
      var n := |A| - 1;
      var before := InsertOrder(A[..n]);
      if A[n] == -1 then before + [n] else Splice(before, A[n], n)
  }

  lemma InsertOrderGrow(A: seq<int>, a: int)
    requires Forest(A) && -1 <= a < |A|
    ensures InsertOrder(A + [a]) == if a == -1 then InsertOrder(A) + [|A|] else Splice(InsertOrder(A), a, |A|)
  {
    assert (A + [a])[..|A|] == A;
  }

  ghost predicate Distinct(s: seq<int>) {
    forall i, j :: 0 <= i < j < |s| ==> s[i] != s[j]
  }

  // `s` lists each of 0..n-1 exactly once.
  ghost predicate Listing(s: seq<int>, n: nat) {
    && |s| == n
    && (forall i :: 0 <= i < |s| ==> 0 <= s[i] < n)
    && Distinct(s)
    && (forall x :: 0 <= x < n ==> x in s)
  }

  // Where `x` stands in `s`.
  ghost function Find(s: seq<int>, x: int): (k: nat)
    requires x in s
    ensures k < |s| && s[k] == x
  {
    var k :| 0 <= k < |s| && s[k] == x;
    k
  }

  lemma {:induction false} SpliceConcat(s: seq<int>, t: seq<int>, a: int, n: int)
    ensures Splice(s + t, a, n) == Splice(s, a, n) + Splice(t, a, n)
  {
    if s == [] {
      assert s + t == t;
    } else {
      assert (s + t)[1..] == s[1..] + t;
      SpliceConcat(s[1..], t, a, n);
    }
  }

  lemma {:induction false} SpliceAbsent(s: seq<int>, a: int, n: int)
    requires a !in s
    ensures Splice(s, a, n) == s
  {
    if s != [] {
      SpliceAbsent(s[1..], a, n);
    }
  }

  lemma {:induction false} SpliceAt(s: seq<int>, a: int, n: int, k: nat)
    requires Distinct(s) && k < |s| && s[k] == a
    ensures Splice(s, a, n) == s[..k + 1] + [n] + s[k + 1..]
  {
    if k == 0 {
      SpliceAbsent(s[1..], a, n);
    } else {
      SpliceAt(s[1..], a, n, k - 1);
      assert s[1..][..k] == s[1..k + 1] && s[1..][k..] == s[k + 1..];
    }
  }

  lemma ListingInsert(s: seq<int>, n: nat, k: nat)
    requires Listing(s, n) && k <= n
    ensures Listing(s[..k] + [n] + s[k..], n + 1)
  {
    var t := s[..k] + [n] + s[k..];
    forall x | 0 <= x < n + 1 ensures x in t {
      if x < n {
        assert x in s;
        var j :| 0 <= j < |s| && s[j] == x;
        assert t[if j < k then j else j + 1] == x;
      } else {
        assert t[k] == n;
      }
    }
  }

  lemma ListingSplice(s: seq<int>, a: int, n: nat)
    requires Listing(s, n) && 0 <= a < n
    ensures Listing(Splice(s, a, n), n + 1)
    ensures Splice(s, a, n)[0] == s[0]
  {
    var k := Find(s, a);
    SpliceAt(s, a, n, k);
    ListingInsert(s, n, k + 1);
  }

  /** Every article is listed exactly once, and the listing starts at article 0. */
  lemma {:induction false} InsertOrderListing(A: seq<int>)
    requires Forest(A)
    ensures Listing(InsertOrder(A), |A|)
    ensures |A| > 0 ==> InsertOrder(A)[0] == 0
  {
    if A != [] {
      var n := |A| - 1;
      InsertOrderListing(A[..n]);
      if A[n] == -1 {
        var s := InsertOrder(A[..n]);
        ListingInsert(s, n, n);
        assert s[..n] + [n] + s[n..] == s + [n];
      } else {
        ListingSplice(InsertOrder(A[..n]), A[n], n);
      }
    }
  }

  // -- Depth-first walk of the anchor forest, larger ids first ---------------------------------

  function Dfs(A: seq<int>, v: nat): seq<int>
    requires Forest(A) && v < |A|
    decreases |A| - v, |A| + 1
  {
    [v] + DfsBelow(A, v, |A|)
  }

  // The walks of those anchor-children of `v` that are smaller than `k`, largest first.
  function DfsBelow(A: seq<int>, v: nat, k: nat): seq<int>
    requires Forest(A) && v < k <= |A|
    decreases |A| - v, k
  {
    if k == v + 1 then []
    else if A[k - 1] == v then Dfs(A, k - 1) + DfsBelow(A, v, k - 1)
    else DfsBelow(A, v, k - 1)
  }

  // The walks of the roots smaller than `k`, smallest first.
  function DfsForest(A: seq<int>, k: nat): seq<int>
    requires Forest(A) && k <= |A|
  {
    if k == 0 then []
    else if A[k - 1] == -1 then DfsForest(A, k - 1) + Dfs(A, k - 1)
    else DfsForest(A, k - 1)
  }

  lemma SpliceCons(x: int, s: seq<int>, a: int, n: int)
    ensures Splice([x] + s, a, n) == (if x == a then [x, n] else [x]) + Splice(s, a, n)
  {
    assert ([x] + s)[1..] == s;
  }

  lemma NewestIsLeaf(B: seq<int>, v: nat)
    requires Forest(B) && v < |B| - 1
    ensures Dfs(B, v) == [v] + (if B[|B| - 1] == v then [|B| - 1] else []) + DfsBelow(B, v, |B| - 1)
  {
    var n := |B| - 1;
    assert DfsBelow(B, n, n + 1) == [];
    assert Dfs(B, n) == [n];
  }

  lemma {:induction false} DfsGrow(A: seq<int>, a: int, v: nat)
    requires Forest(A) && -1 <= a < |A| && v < |A|
    ensures Dfs(A + [a], v) == Splice(Dfs(A, v), a, |A|)
    decreases |A| - v, |A| + 1
  {
    DfsBelowGrow(A, a, v, |A|);
    NewestIsLeaf(A + [a], v);
    SpliceCons(v, DfsBelow(A, v, |A|), a, |A|);
  }

  lemma {:induction false} DfsBelowGrow(A: seq<int>, a: int, v: nat, k: nat)
    requires Forest(A) && -1 <= a < |A| && v < k <= |A|
    ensures DfsBelow(A + [a], v, k) == Splice(DfsBelow(A, v, k), a, |A|)
    decreases |A| - v, k
  {
    if k > v + 1 {
      var B, n := A + [a], |A|;
      DfsBelowGrow(A, a, v, k - 1);
      assert B[k - 1] == A[k - 1];
      if A[k - 1] == v {
        DfsGrow(A, a, k - 1);
        SpliceConcat(Dfs(A, k - 1), DfsBelow(A, v, k - 1), a, n);
        assert DfsBelow(B, v, k) == Dfs(B, k - 1) + DfsBelow(B, v, k - 1);
      } else {
        assert DfsBelow(B, v, k) == DfsBelow(B, v, k - 1);
      }
    }
  }

  lemma {:induction false} DfsForestGrow(A: seq<int>, a: int, k: nat)
    requires Forest(A) && -1 <= a < |A| && k <= |A|
    ensures DfsForest(A + [a], k) == Splice(DfsForest(A, k), a, |A|)
  {
    if k > 0 {
      DfsForestGrow(A, a, k - 1);
      if A[k - 1] == -1 {
        DfsGrow(A, a, k - 1);
        SpliceConcat(DfsForest(A, k - 1), Dfs(A, k - 1), a, |A|);
      }
    }
  }

  lemma {:induction false} SpliceTail(s: seq<int>, n: int)
    requires forall i :: 0 <= i < |s| ==> s[i] >= 0
    ensures Splice(s, -1, n) == s
  {
    SpliceAbsent(s, -1, n);
  }

  /** The ordering law: repeated insertion lists exactly the depth-first walk of the anchor
      forest, roots in posting order and larger ids first below each article. */
  lemma {:induction false} InsertOrderIsDfs(A: seq<int>)
    requires Forest(A)
    ensures InsertOrder(A) == DfsForest(A, |A|)
  {
    if A != [] {
      var n := |A| - 1;
      var C, a := A[..n], A[n];
      assert A == C + [a];
      InsertOrderIsDfs(C);
      DfsForestGrow(C, a, n);
      if a == -1 {
        InsertOrderListing(C);
        SpliceTail(InsertOrder(C), n);
        assert DfsBelow(A, n, n + 1) == [];
      }
    }
  }

  // -- Insertions never reorder -----------------------------------------------------------------

  // The members of `s` smaller than `m`, in order.
  function Below(s: seq<int>, m: int): seq<int> {
    if s == [] then []
    else if s[0] < m then [s[0]] + Below(s[1..], m)
    else Below(s[1..], m)
  }

  lemma {:induction false} BelowConcat(s: seq<int>, t: seq<int>, m: int)
    ensures Below(s + t, m) == Below(s, m) + Below(t, m)
  {
    if s == [] {
      assert s + t == t;
    } else {
      assert (s + t)[1..] == s[1..] + t;
      BelowConcat(s[1..], t, m);
    }
  }

  lemma {:induction false} BelowSplice(s: seq<int>, a: int, n: int, m: int)
    requires m <= n
    ensures Below(Splice(s, a, n), m) == Below(s, m)
  {
    if s != [] {
      BelowSplice(s[1..], a, n, m);
      var head := if s[0] == a then [a, n] else [s[0]];
      BelowConcat(head, Splice(s[1..], a, n), m);
      assert Below(head, m) == if s[0] < m then [s[0]] else [] by {
        if s[0] == a {
          assert head == [a] + [n];
          BelowConcat([a], [n], m);
        }
      }
    }
  }

  lemma {:induction false} BelowAll(s: seq<int>, m: int)
    requires forall i :: 0 <= i < |s| ==> s[i] < m
    ensures Below(s, m) == s
  {
    if s != [] {
      BelowAll(s[1..], m);
    }
  }

  /** Dropping the articles from `m` on gives the listing the board had when it held `m`. */
  lemma {:induction false} InsertOrderPrefix(A: seq<int>, m: nat)
    requires Forest(A) && m <= |A|
    ensures Below(InsertOrder(A), m) == InsertOrder(A[..m])
  {
    var n := |A| - 1;
    if m == |A| {
      InsertOrderListing(A);
      assert A[..m] == A;
      BelowAll(InsertOrder(A), m);
    } else {
      InsertOrderPrefix(A[..n], m);
      assert A[..n][..m] == A[..m];
      if A[n] == -1 {
        BelowConcat(InsertOrder(A[..n]), [n], m);
      } else {
        BelowSplice(InsertOrder(A[..n]), A[n], n, m);
      }
    }
  }

  // -- Who comes before whom --------------------------------------------------------------------

  ghost predicate Before(s: seq<int>, x: int, y: int) {
    exists i, j :: 0 <= i < j < |s| && s[i] == x && s[j] == y
  }

  lemma {:induction false} BelowIn(s: seq<int>, m: int, x: int)
    requires x in Below(s, m)
    ensures x in s
  {
    if s[0] != x {
      BelowIn(s[1..], m, x);
    }
  }

  lemma {:induction false} BeforeFromBelow(s: seq<int>, m: int, x: int, y: int)
    requires Before(Below(s, m), x, y)
    ensures Before(s, x, y)
  {
    var t, rest := Below(s, m), Below(s[1..], m);
    var i, j :| 0 <= i < j < |t| && t[i] == x && t[j] == y;
    if s[0] < m && i == 0 {
      assert rest[j - 1] == y;
      BelowIn(s[1..], m, y);
      var l :| 0 <= l < |s[1..]| && s[1..][l] == y;
      assert s[0] == x && s[l + 1] == y;
    } else {
      var d := if s[0] < m then 1 else 0;
      assert rest[i - d] == x && rest[j - d] == y;
      BeforeFromBelow(s[1..], m, x, y);
      var k, l :| 0 <= k < l < |s[1..]| && s[1..][k] == x && s[1..][l] == y;
      assert s[k + 1] == x && s[l + 1] == y;
    }
  }

  // The moment `y` arrives, its anchor (or, for a post, everything) stands before it.
  lemma BeforeOnArrival(s: seq<int>, x: nat, y: nat, a: int)
    requires Listing(s, y) && x < y && (a == x || a == -1)
    ensures Before(if a == -1 then s + [y] else Splice(s, a, y), x, y)
  {
    var k := Find(s, x);
    var t := if a == -1 then s + [y] else Splice(s, a, y);
    if a == -1 {
      assert t[k] == x && t[y] == y;
    } else {
      SpliceAt(s, x, y, k);
      assert t[k] == x && t[k + 1] == y;
    }
  }

  lemma BeforeInNewest(C: seq<int>, x: nat)
    requires Forest(C) && x < |C| - 1 && (C[|C| - 1] == x || C[|C| - 1] == -1)
    ensures Before(InsertOrder(C), x, |C| - 1)
  {
    var y := |C| - 1;
    InsertOrderListing(C[..y]);
    BeforeOnArrival(InsertOrder(C[..y]), x, y, C[y]);
  }

  lemma BeforeNewest(A: seq<int>, x: nat, y: nat)
    requires Forest(A) && x < y < |A| && (A[y] == x || A[y] == -1)
    ensures Before(InsertOrder(A), x, y)
  {
    BeforeInNewest(A[..y + 1], x);
    InsertOrderPrefix(A, y + 1);
    BeforeFromBelow(InsertOrder(A), y + 1, x, y);
  }

  lemma BeforeTransitive(s: seq<int>, x: int, y: int, z: int)
    requires Distinct(s) && Before(s, x, y) && Before(s, y, z)
    ensures Before(s, x, z)
  {
    var i, j :| 0 <= i < j < |s| && s[i] == x && s[j] == y;
    var k, l :| 0 <= k < l < |s| && s[k] == y && s[l] == z;
    assert j == k;
  }

  /** Every parent is listed before its replies. */
  lemma {:induction false} ParentFirst(P: seq<int>, i: nat)
    requires Forest(P) && i < |P| && P[i] >= 0
    ensures Before(InsertOrder(Anchors(P)), P[i], i)
    decreases i
  {
    var A := Anchors(P);
    var c := A[i];
    BeforeNewest(A, c, i);
    if c != P[i] {
      ParentFirst(P, c);
      InsertOrderListing(A);
      BeforeTransitive(InsertOrder(A), P[i], c, i);
    }
  }

  /** Articles with the same parent (posts included) are listed in arrival order. */
  lemma {:induction false} SiblingsInArrivalOrder(P: seq<int>, j: nat, i: nat)
    requires Forest(P) && j < i < |P| && P[j] == P[i]
    ensures Before(InsertOrder(Anchors(P)), j, i)
    decreases i
  {
    var A := Anchors(P);
    if P[i] == -1 {
      BeforeNewest(A, j, i);
    } else {
      var c := LatestChild(P, P[i], i);
      assert j <= c;
      BeforeNewest(A, c, i);
      if j < c {
        SiblingsInArrivalOrder(P, j, c);
        InsertOrderListing(A);
        BeforeTransitive(InsertOrder(A), j, c, i);
      }
    }
  }

  // -- Threads are contiguous -------------------------------------------------------------------

  // The post that started the thread `i` belongs to.
  function Root(P: seq<int>, i: int): (r: int)
    requires Forest(P) && 0 <= i < |P|
    ensures 0 <= r <= i && P[r] == -1
    decreases i
  {
    if P[i] == -1 then i else Root(P, P[i])
  }

  lemma {:induction false} RootByAnchors(P: seq<int>, i: nat)
    requires Forest(P) && i < |P|
    ensures Root(Anchors(P), i) == Root(P, i)
    decreases i
  {
    var A := Anchors(P);
    if P[i] != -1 {
      var c := A[i];
      RootByAnchors(P, c);
      assert c != P[i] ==> Root(P, c) == Root(P, P[i]);
    }
  }

  lemma {:induction false} DfsOneRoot(A: seq<int>, v: nat, x: int)
    requires Forest(A) && v < |A| && x in Dfs(A, v)
    ensures 0 <= x < |A| && Root(A, x) == Root(A, v)
    decreases |A| - v, |A| + 1
  {
    if x != v {
      DfsBelowOneRoot(A, v, |A|, x);
    }
  }

  lemma {:induction false} DfsBelowOneRoot(A: seq<int>, v: nat, k: nat, x: int)
    requires Forest(A) && v < k <= |A| && x in DfsBelow(A, v, k)
    ensures 0 <= x < |A| && Root(A, x) == Root(A, v)
    decreases |A| - v, k
  {
    if A[k - 1] == v && x in Dfs(A, k - 1) {
      DfsOneRoot(A, k - 1, x);
    } else {
      DfsBelowOneRoot(A, v, k - 1, x);
    }
  }

  // `s` lists articles thread by thread, the threads in posting order.
  ghost predicate ByThread(P: seq<int>, s: seq<int>)
    requires Forest(P)
  {
    && (forall i :: 0 <= i < |s| ==> 0 <= s[i] < |P|)
    && (forall i, j :: 0 <= i <= j < |s| ==> Root(P, s[i]) <= Root(P, s[j]))
  }

  lemma {:induction false} DfsForestByThread(A: seq<int>, k: nat)
    requires Forest(A) && k <= |A|
    ensures ByThread(A, DfsForest(A, k))
    ensures forall i :: 0 <= i < |DfsForest(A, k)| ==> Root(A, DfsForest(A, k)[i]) < k
  {
    if k > 0 {
      DfsForestByThread(A, k - 1);
      if A[k - 1] == -1 {
        var t := Dfs(A, k - 1);
        forall i | 0 <= i < |t| ensures 0 <= t[i] < |A| && Root(A, t[i]) == k - 1 {
          DfsOneRoot(A, k - 1, t[i]);
        }
      }
    }
  }

  /** Each thread occupies one contiguous block, and the blocks stand in posting order. */
  lemma ThreadsContiguous(P: seq<int>)
    requires Forest(P)
    ensures ByThread(P, InsertOrder(Anchors(P)))
  {
    var A := Anchors(P);
    InsertOrderIsDfs(A);
    DfsForestByThread(A, |A|);
    forall i | 0 <= i < |P| ensures Root(A, i) == Root(P, i) {
      RootByAnchors(P, i);
    }
  }
}
