/** Laws of the board: what holds in every database that posts and replies can produce. */
module Board {
  import opened CTypes
  import opened ThreadOrder
  import opened Preorder
  import opened Database

  // Steps from article `i` up to the post that started its thread.
  function Depth(P: seq<int>, i: int): (d: nat)
    requires Forest(P) && 0 <= i < |P|
    decreases i
  {
    if P[i] == -1 then 0 else 1 + Depth(P, P[i])
  }

  // "RE: " written `d` times.
  function Prefix(d: nat): (t: Text)
    ensures |t| == 4 * d
  {
    if d == 0 then [] else RE + Prefix(d - 1)
  }

  ghost predicate Labelled(nodes: seq<Node>) {
    var P := Parents(nodes);
    Forest(P) && forall i :: 0 <= i < |nodes| ==> LabelledAt(nodes, P, i)
  }

  // Article `i` carries its depth, and its thread's first title behind that many "RE: ".
  ghost predicate LabelledAt(nodes: seq<Node>, P: seq<int>, i: nat)
    requires Forest(P) && |P| == |nodes| && i < |nodes|
  {
    && nodes[i].article.depth == Depth(P, i)
    && nodes[i].article.title == Prefix(Depth(P, i)) + nodes[Root(P, i)].article.title
  }

  // The invariant of every database the operations can reach.
  ghost predicate Sound(db: Db) {
    && db.version == |db.nodes| <= MAX_ARTICLES
    && WellLinked(db.nodes)
    && Labelled(db.nodes)
  }

  // -- A write keeps the invariant ----------------------------------------------------------------

  lemma {:induction false} UpwardsPrefix(P: seq<int>, p: int, i: nat)
    requires Forest(P) && -1 <= p < |P| && i < |P|
    ensures Forest(P + [p])
    ensures Depth(P + [p], i) == Depth(P, i) && Root(P + [p], i) == Root(P, i)
    decreases i
  {
    if P[i] != -1 {
      UpwardsPrefix(P, p, P[i]);
    }
  }

  // Splicing slot n in after the k-th of the chain.
  lemma LinkedInsert(nodes: seq<Node>, order: seq<int>, k: nat, article: Article)
    requires Linked(nodes, order) && Distinct(order) && k < |order|
    ensures var n := |nodes|;
            Linked(Inserted(nodes, order[k], article), order[..k + 1] + [n] + order[k + 1..])
  {
    var n := |nodes|;
    var longer := order[..k + 1] + [n] + order[k + 1..];
    var more := Inserted(nodes, order[k], article);
    forall j | 0 <= j < |longer|
      ensures 0 <= longer[j] <= n && more[longer[j]].next == After(longer, j)
    {
      if j <= k {
        assert longer[j] == order[j];
      } else if j > k + 1 {
        assert longer[j] == order[j - 1];
        assert After(longer, j) == After(order, j - 1);
      }
    }
  }

  lemma ChainInsert(nodes: seq<Node>, order: seq<int>, at: nat, article: Article)
    requires Chain(nodes, order) && at < |nodes|
    ensures Chain(Inserted(nodes, at, article), Splice(order, at, |nodes|))
  {
    var k := Find(order, at);
    SpliceAt(order, at, |nodes|, k);
    ListingInsert(order, |nodes|, k + 1);
    LinkedInsert(nodes, order, k, article);
  }

  // The slot that ends the chain is its last.
  lemma EndOfChain(nodes: seq<Node>, order: seq<int>)
    requires Chain(nodes, order) && |nodes| > 0
    ensures FirstEnd(nodes, 0) == order[|nodes| - 1]
  {
    var last := |nodes| - 1;
    assert nodes[order[last]].next == After(order, last);
    var k := Find(order, FirstEnd(nodes, 0));
    assert After(order, k) == -1;
  }

  lemma AppendedIsInserted(nodes: seq<Node>, end: nat, article: Article)
    requires FirstEnd(nodes, 0) == end < |nodes|
    ensures Appended(nodes, article) == Inserted(nodes, end, article)
  {
  }

  lemma ChainAppend(nodes: seq<Node>, order: seq<int>, article: Article)
    requires Chain(nodes, order)
    ensures Chain(Appended(nodes, article), order + [|nodes|])
  {
    var n := |nodes|;
    ListingInsert(order, n, n);
    assert order[..n] + [n] + order[n..] == order + [n];
    if n > 0 {
      EndOfChain(nodes, order);
      AppendedIsInserted(nodes, order[n - 1], article);
      LinkedInsert(nodes, order, n - 1, article);
    }
  }

  // Where the law puts a new article with parent `p`.
  ghost function OrderWith(nodes: seq<Node>, p: int): seq<int>
    requires Forest(Parents(nodes)) && -1 <= p < |nodes|
  {
    if p == -1 then Order(nodes) + [|nodes|]
    else Splice(Order(nodes), NewAnchor(Parents(nodes), p), |nodes|)
  }

  lemma ParentsOneMore(nodes: seq<Node>, more: seq<Node>, p: int)
    requires |more| == |nodes| + 1 && more[|nodes|].article.parentId == p
    requires forall i :: 0 <= i < |nodes| ==> more[i].article == nodes[i].article
    ensures Parents(more) == Parents(nodes) + [p]
  {
  }

  lemma OrderOneMore(nodes: seq<Node>, more: seq<Node>, p: int)
    requires Forest(Parents(nodes)) && -1 <= p < |nodes| && Parents(more) == Parents(nodes) + [p]
    ensures Forest(Parents(more)) && Order(more) == OrderWith(nodes, p)
  {
    var P := Parents(nodes);
    AnchorsGrow(P, p);
    InsertOrderGrow(Anchors(P), NewAnchor(P, p));
  }

  // One more node, with parent `p`, linked in where the law wants it, keeps the links in order.
  lemma LinkedOneMore(nodes: seq<Node>, more: seq<Node>, p: int, order: seq<int>)
    requires WellLinked(nodes) && -1 <= p < |nodes|
    requires Parents(more) == Parents(nodes) + [p]
    requires forall i :: 0 <= i < |more| ==> more[i].article.id == i
    requires order == OrderWith(nodes, p) && Chain(more, order)
    ensures WellLinked(more)
  {
    OrderOneMore(nodes, more, p);
  }

  // `more` is `nodes` with one more article, of parent `p`.
  predicate OneMore(nodes: seq<Node>, more: seq<Node>, p: int) {
    && |more| == |nodes| + 1 && -1 <= p < |nodes| && Parents(more) == Parents(nodes) + [p]
    && forall i :: 0 <= i < |nodes| ==> more[i].article == nodes[i].article
  }

  lemma LabelledOld(nodes: seq<Node>, more: seq<Node>, p: int, i: nat)
    requires Labelled(nodes) && OneMore(nodes, more, p) && i < |nodes|
    ensures Forest(Parents(more)) && LabelledAt(more, Parents(more), i)
  {
    UpwardsPrefix(Parents(nodes), p, i);
    assert LabelledAt(nodes, Parents(nodes), i);
  }

  lemma LabelledNew(nodes: seq<Node>, more: seq<Node>, p: nat)
    requires Labelled(nodes) && OneMore(nodes, more, p)
    requires more[|nodes|].article.depth == nodes[p].article.depth + 1
    requires more[|nodes|].article.title == RE + nodes[p].article.title
    ensures Forest(Parents(more)) && LabelledAt(more, Parents(more), |nodes|)
  {
    var P := Parents(nodes);
    UpwardsPrefix(P, p, p);
    assert LabelledAt(nodes, P, p);
    PrefixMore(Depth(P, p), nodes[Root(P, p)].article.title);
  }

  lemma LabelledOneMore(nodes: seq<Node>, more: seq<Node>, p: int)
    requires Labelled(nodes) && OneMore(nodes, more, p)
    requires p == -1 ==> more[|nodes|].article.depth == 0
    requires p >= 0 ==>
               && more[|nodes|].article.depth == nodes[p].article.depth + 1
               && more[|nodes|].article.title == RE + nodes[p].article.title
    ensures Labelled(more)
  {
    assert Forest(Parents(more));
    forall i | 0 <= i < |more| ensures LabelledAt(more, Parents(more), i) {
      if i < |nodes| {
        LabelledOld(nodes, more, p, i);
      } else if p >= 0 {
        LabelledNew(nodes, more, p);
      }
    }
  }

  lemma PrefixMore(d: nat, title: Text)
    ensures RE + (Prefix(d) + title) == Prefix(d + 1) + title
  {
  }

  lemma NumberedOneMore(nodes: seq<Node>, more: seq<Node>)
    requires forall i :: 0 <= i < |nodes| ==> nodes[i].article.id == i
    requires |more| == |nodes| + 1 && more[|nodes|].article.id == |nodes|
    requires forall i :: 0 <= i < |nodes| ==> more[i].article == nodes[i].article
    ensures forall i :: 0 <= i < |more| ==> more[i].article.id == i
  {
  }

  lemma PostLinked(nodes: seq<Node>, article: Article)
    requires WellLinked(nodes) && article.id == |nodes| && article.parentId == -1
    ensures WellLinked(Appended(nodes, article))
    ensures Parents(Appended(nodes, article)) == Parents(nodes) + [-1]
  {
    var more := Appended(nodes, article);
    ParentsOneMore(nodes, more, -1);
    ChainAppend(nodes, Order(nodes), article);
    NumberedOneMore(nodes, more);
    LinkedOneMore(nodes, more, -1, Order(nodes) + [|nodes|]);
  }

  lemma PostKeeps(db: Db, author: Text, title: Text, contents: Text)
    requires Sound(db)
    ensures Sound(AfterPost(db, author, title, contents).0)
  {
    if |db.nodes| < MAX_ARTICLES {
      var article := Article(|db.nodes|, -1, 0, author, title, contents);
      PostLinked(db.nodes, article);
      LabelledOneMore(db.nodes, Appended(db.nodes, article), -1);
    }
  }

  lemma {:induction false} SameLatest(nodes: seq<Node>, p: int, to: nat)
    requires to <= |nodes|
    ensures LastReply(nodes, p, to) == LatestChild(Parents(nodes), p, to)
  {
    if to > 0 {
      SameLatest(nodes, p, to - 1);
    }
  }

  lemma ReplyLinked(nodes: seq<Node>, parent: nat, article: Article)
    requires WellLinked(nodes) && parent < |nodes| && article.id == |nodes| && article.parentId == parent
    ensures WellLinked(Inserted(nodes, AnchorSlot(nodes, parent), article))
    ensures Parents(Inserted(nodes, AnchorSlot(nodes, parent), article)) == Parents(nodes) + [parent]
  {
    var at := AnchorSlot(nodes, parent);
    var more := Inserted(nodes, at, article);
    ParentsOneMore(nodes, more, parent);
    SameLatest(nodes, parent, |nodes|);
    ChainInsert(nodes, Order(nodes), at, article);
    LinkedOneMore(nodes, more, parent, Splice(Order(nodes), at, |nodes|));
  }

  lemma ReplyStored(nodes: seq<Node>, parent: nat, article: Article)
    requires WellLinked(nodes) && Labelled(nodes)
    requires parent < |nodes| && article.id == |nodes| && article.parentId == parent
    requires article.depth == nodes[parent].article.depth + 1 && article.title == RE + nodes[parent].article.title
    ensures var more := Inserted(nodes, AnchorSlot(nodes, parent), article);
            WellLinked(more) && Labelled(more)
  {
    ReplyLinked(nodes, parent, article);
    LabelledOneMore(nodes, Inserted(nodes, AnchorSlot(nodes, parent), article), parent);
  }

  function ReplyArticle(nodes: seq<Node>, parent: nat, author: Text, contents: Text): Article
    requires parent < |nodes|
  {
    Article(|nodes|, parent, nodes[parent].article.depth + 1, author, RE + nodes[parent].article.title, contents)
  }

  lemma ReplyResult(db: Db, parent: int, author: Text, contents: Text)
    requires |db.nodes| < MAX_ARTICLES
    requires forall i :: 0 <= i < |db.nodes| ==> db.nodes[i].article.id == i
    ensures AfterReply(db, parent, author, contents)
         == if 0 <= parent < |db.nodes| then
              var article := ReplyArticle(db.nodes, parent, author, contents);
              (Db(db.version + 1, Inserted(db.nodes, AnchorSlot(db.nodes, parent), article)), Stored(|db.nodes|))
            else (db, InvalidId)
  {
    if 0 <= parent < |db.nodes| {
      assert db.nodes[parent].article.id == parent;
      assert FindId(db.nodes, parent, 0) == parent;
    }
  }

  lemma ReplyKeeps(db: Db, parent: int, author: Text, contents: Text)
    requires Sound(db)
    ensures Sound(AfterReply(db, parent, author, contents).0)
  {
    if |db.nodes| < MAX_ARTICLES {
      ReplyResult(db, parent, author, contents);
      if 0 <= parent < |db.nodes| {
        ReplyStored(db.nodes, parent, ReplyArticle(db.nodes, parent, author, contents));
      }
    }
  }

  lemma ApplyKeeps(db: Db, w: Write)
    requires Sound(db)
    ensures Sound(Apply(db, w).0)
  {
    match w
    case Post(author, title, contents) => PostKeeps(db, author, title, contents);
    case Reply(parent, author, contents) => ReplyKeeps(db, parent, author, contents);
  }

  /** After any sequence of posts and replies: the version counts the articles, the links form one
      chain in the order the law gives, and depths and titles follow the reply tree. */
  lemma {:induction false} RunSound(ws: seq<Write>)
    ensures Sound(Run(EMPTY, ws))
  {
    if ws != [] {
      RunSound(ws[..|ws| - 1]);
      ApplyKeeps(Run(EMPTY, ws[..|ws| - 1]), ws[|ws| - 1]);
    }
  }

  /** A write is stored exactly when there is room and, for a reply, the parent exists. It then
      gets the next number and raises the version by one; otherwise nothing changes. */
  lemma WriteOutcome(db: Db, w: Write)
    requires |db.nodes| <= MAX_ARTICLES && forall i :: 0 <= i < |db.nodes| ==> db.nodes[i].article.id == i
    ensures var (after, outcome) := Apply(db, w);
            && (outcome.Full? <==> |db.nodes| == 256)
            && (outcome.InvalidId? <==> |db.nodes| < 256 && w.Reply? && !(0 <= w.parent < |db.nodes|))
            && (outcome.Stored? ==> outcome.id == |db.nodes| && after.version == db.version + 1)
            && (!outcome.Stored? ==> after == db)
  {
    if w.Reply? && 0 <= w.parent < |db.nodes| {
      assert db.nodes[w.parent].article.id == w.parent;
    }
  }

  // -- The laws, read off the invariant -----------------------------------------------------------

  /** The order a read returns: the depth-first walk of the anchor forest that visits larger ids
      first, thread by thread in posting order; it is the preorder of the reply tree exactly when
      every reply with a first child and a next sibling got the child last. */
  lemma ReadOrder(ws: seq<Write>)
    ensures WellLinked(Run(EMPTY, ws).nodes)
    ensures var nodes := Run(EMPTY, ws).nodes;
            Order(nodes) == DfsForest(Anchors(Parents(nodes)), |nodes|)
    ensures var nodes := Run(EMPTY, ws).nodes;
            ByThread(Parents(nodes), Order(nodes))
    ensures var nodes := Run(EMPTY, ws).nodes;
            Order(nodes) == PreForest(Parents(nodes), |nodes|)
            <==> forall c :: 0 <= c < |nodes| ==> Settled(Parents(nodes), c)
  {
    RunSound(ws);
    var P := Parents(Run(EMPTY, ws).nodes);
    InsertOrderIsDfs(Anchors(P));
    ThreadsContiguous(P);
    ListingIsPreorder(P);
  }

  predicate HasParents(ws: seq<Write>, P: seq<int>) {
    Parents(Run(EMPTY, ws).nodes) == P
  }

  lemma HasParentsNext(ws: seq<Write>, P: seq<int>, w: Write, p: int, more: seq<Write>, Q: seq<int>)
    requires HasParents(ws, P) && |P| < MAX_ARTICLES && more == ws + [w] && Q == P + [p]
    requires if w.Post? then p == -1 else 0 <= w.parent == p < |P|
    ensures HasParents(more, Q)
  {
    assert more[..|ws|] == ws;
    RunSound(ws);
    var db := Run(EMPTY, ws);
    if w.Reply? {
      ReplyResult(db, w.parent, w.author, w.contents);
    }
  }

  // A post, a reply, a reply to that, and a second reply to the post.
  function FourWrites(): seq<Write> {
    [Post([], [], []), Reply(0, [], []), Reply(1, [], []), Reply(0, [], [])]
  }

  lemma OneParent(w: Write)
    requires w.Post?
    ensures HasParents([w], [-1])
  {
    HasParentsNext([], [], w, -1, [w], [-1]);
  }

  lemma TwoParents()
    ensures HasParents(FourWrites()[..2], [-1, 0])
  {
    var w0, w1 := Post([], [], []), Reply(0, [], []);
    OneParent(w0);
    HasParentsNext([w0], [-1], w1, 0, FourWrites()[..2], [-1, 0]);
  }

  lemma FourParents()
    ensures HasParents(FourWrites(), [-1, 0, 1, 0])
  {
    TwoParents();
    var ws := FourWrites();
    HasParentsNext(ws[..2], [-1, 0], ws[2], 1, ws[..3], [-1, 0, 1]);
    HasParentsNext(ws[..3], [-1, 0, 1], ws[3], 0, ws, [-1, 0, 1, 0]);
  }

  lemma OrderOf(ws: seq<Write>, P: seq<int>)
    requires HasParents(ws, P) && Forest(P) && InsertOrder(Anchors(P)) != PreForest(P, |P|)
    ensures var nodes := Run(EMPTY, ws).nodes;
            WellLinked(nodes) && Order(nodes) != PreForest(Parents(nodes), |nodes|)
  {
    RunSound(ws);
  }

  /** Preorder fails on a board of four writes. */
  lemma ReadNotPreorder()
    ensures var nodes := Run(EMPTY, FourWrites()).nodes;
            WellLinked(nodes) && Order(nodes) != PreForest(Parents(nodes), |nodes|)
  {
    FourParents();
    NotAlwaysPreorder();
    OrderOf(FourWrites(), [-1, 0, 1, 0]);
  }

  /** A read shows every article once, each parent before its replies and the replies of one
      parent, like the posts, in arrival order. */
  lemma ReadShowsAll(ws: seq<Write>)
    ensures var nodes := Run(EMPTY, ws).nodes;
            && WellLinked(nodes)
            && Listing(Order(nodes), |nodes|) && |Listed(nodes)| == |nodes|
            && (forall k :: 0 <= k < |nodes| ==> Listed(nodes)[k] == nodes[Order(nodes)[k]].article)
            && (forall i :: 0 <= i < |nodes| && nodes[i].article.parentId >= 0 ==>
                  Before(Order(nodes), nodes[i].article.parentId, i))
            && (forall i, j :: 0 <= i < j < |nodes| && nodes[i].article.parentId == nodes[j].article.parentId ==>
                  Before(Order(nodes), i, j))
  {
    RunSound(ws);
    var nodes := Run(EMPTY, ws).nodes;
    var P := Parents(nodes);
    forall i | 0 <= i < |nodes| && nodes[i].article.parentId >= 0
      ensures Before(Order(nodes), nodes[i].article.parentId, i)
    {
      ParentFirst(P, i);
    }
    forall i, j | 0 <= i < j < |nodes| && nodes[i].article.parentId == nodes[j].article.parentId
      ensures Before(Order(nodes), i, j)
    {
      SiblingsInArrivalOrder(P, i, j);
    }
  }

  /** The title of an article fits its array of `size` bytes exactly when the thread's first title
      leaves room for four more bytes per step and the terminating NUL. */
  lemma TitleFits(ws: seq<Write>, i: nat, size: nat)
    requires i < |Run(EMPTY, ws).nodes|
    ensures var nodes := Run(EMPTY, ws).nodes;
            && Forest(Parents(nodes))
            && nodes[i].article.depth == Depth(Parents(nodes), i)
            && nodes[Root(Parents(nodes), i)].article.parentId == -1
            && (|nodes[i].article.title| + 1 <= size
                <==> |nodes[Root(Parents(nodes), i)].article.title| + 4 * nodes[i].article.depth + 1 <= size)
  {
    RunSound(ws);
    var nodes := Run(EMPTY, ws).nodes;
    assert LabelledAt(nodes, Parents(nodes), i);
  }

  // -- Earlier and later states of one board ------------------------------------------------------

  // `b` holds the articles of `a` and possibly newer ones.
  ghost predicate Extends(a: seq<Node>, b: seq<Node>) {
    |a| <= |b| && forall i :: 0 <= i < |a| ==> a[i].article == b[i].article
  }

  lemma ApplyExtends(db: Db, w: Write)
    ensures Extends(db.nodes, Apply(db, w).0.nodes)
  {
  }

  lemma {:induction false} RunExtends(ws: seq<Write>, m: nat)
    requires m <= |ws|
    ensures Extends(Run(EMPTY, ws[..m]).nodes, Run(EMPTY, ws).nodes)
    decreases |ws|
  {
    if m == |ws| {
      assert ws[..m] == ws;
    } else {
      var earlier := ws[..|ws| - 1];
      RunExtends(earlier, m);
      ApplyExtends(Run(EMPTY, earlier), ws[|ws| - 1]);
      assert earlier[..m] == ws[..m];
    }
  }

  // Where the members of `s` below `m` stand in `s`.
  function BelowAt(s: seq<int>, m: int): (f: seq<int>) {
    if s == [] then []
    else if s[0] < m then [0] + Shift(BelowAt(s[1..], m))
    else Shift(BelowAt(s[1..], m))
  }

  function Shift(f: seq<int>): (g: seq<int>)
    ensures |g| == |f| && forall i :: 0 <= i < |f| ==> g[i] == f[i] + 1
  {
    seq(|f|, i requires 0 <= i < |f| => f[i] + 1)
  }

  lemma {:induction false} BelowPicks(s: seq<int>, m: int)
    ensures Picks(Below(s, m), s, BelowAt(s, m))
  {
    if s != [] {
      BelowPicks(s[1..], m);
      PicksCons(Below(s[1..], m), s[1..], BelowAt(s[1..], m), s[0]);
      assert s == [s[0]] + s[1..];
    }
  }

  lemma PicksCons(a: seq<int>, b: seq<int>, f: seq<int>, x: int)
    requires Picks(a, b, f)
    ensures Picks(a, [x] + b, Shift(f)) && Picks([x] + a, [x] + b, [0] + Shift(f))
  {
  }

  lemma PicksAlong(a: seq<Node>, b: seq<Node>, s: seq<int>, t: seq<int>, f: seq<int>)
    requires Extends(a, b) && Picks(s, t, f)
    requires forall i :: 0 <= i < |s| ==> 0 <= s[i] < |a|
    requires forall i :: 0 <= i < |t| ==> 0 <= t[i] < |b|
    ensures Picks(Along(a, s), Along(b, t), f)
  {
  }

  lemma ExtendsSubsequence(a: seq<Node>, b: seq<Node>)
    requires WellLinked(a) && WellLinked(b) && Extends(a, b)
    ensures Order(a) == Below(Order(b), |a|)
    ensures Subsequence(Listed(a), Listed(b))
  {
    assert Parents(b)[..|a|] == Parents(a);
    AnchorsPrefix(Parents(b), |a|);
    InsertOrderPrefix(Anchors(Parents(b)), |a|);
    BelowPicks(Order(b), |a|);
    PicksAlong(a, b, Order(a), Order(b), BelowAt(Order(b), |a|));
  }

  /** No write reorders: an earlier read is a later one with the newer articles left out. */
  lemma EarlierRead(ws: seq<Write>, m: nat)
    requires m <= |ws|
    ensures var a, b := Run(EMPTY, ws[..m]).nodes, Run(EMPTY, ws).nodes;
            && WellLinked(a) && WellLinked(b)
            && Order(a) == Below(Order(b), |a|)
            && Subsequence(Listed(a), Listed(b))
  {
    RunSound(ws[..m]);
    RunSound(ws);
    RunExtends(ws, m);
    ExtendsSubsequence(Run(EMPTY, ws[..m]).nodes, Run(EMPTY, ws).nodes);
  }

  // -- The articles a database holds ---------------------------------------------------------------

  function Articles(db: Db): set<Article> {
    set n | n in db.nodes :: n.article
  }

  lemma ArticleAt(db: Db, i: nat)
    requires i < |db.nodes|
    ensures db.nodes[i].article in Articles(db)
  {
    assert db.nodes[i] in db.nodes;
  }

  // In sound databases articles are numbered by slot, so one holds all of another's only by extending it.
  lemma KeptIffExtends(a: Db, b: Db)
    requires Sound(a) && Sound(b)
    ensures Articles(a) <= Articles(b) <==> Extends(a.nodes, b.nodes)
  {
    if Articles(a) <= Articles(b) {
      forall i | 0 <= i < |a.nodes| ensures i < |b.nodes| && a.nodes[i].article == b.nodes[i].article {
        ArticleAt(a, i);
        var n :| n in b.nodes && n.article == a.nodes[i].article;
        var j :| 0 <= j < |b.nodes| && b.nodes[j] == n;
        assert b.nodes[j].article.id == j && a.nodes[i].article.id == i;
      }
      if |a.nodes| > 0 {
        assert a.nodes[|a.nodes| - 1].article == b.nodes[|a.nodes| - 1].article;
      }
    }
    if Extends(a.nodes, b.nodes) {
      forall x | x in Articles(a) ensures x in Articles(b) {
        var n :| n in a.nodes && n.article == x;
        var i :| 0 <= i < |a.nodes| && a.nodes[i] == n;
        ArticleAt(b, i);
      }
    }
  }

  lemma WriteKeeps(db: Db, w: Write)
    ensures Articles(db) <= Articles(Apply(db, w).0)
  {
    var after := Apply(db, w).0;
    ApplyExtends(db, w);
    forall x | x in Articles(db) ensures x in Articles(after) {
      var n :| n in db.nodes && n.article == x;
      var i :| 0 <= i < |db.nodes| && db.nodes[i] == n;
      ArticleAt(after, i);
    }
  }

  lemma OnePost(author: Text)
    ensures Apply(EMPTY, Post(author, [], [])) == (Db(1, [Node(-1, Article(0, -1, 0, author, [], []))]), Stored(0))
  {
    assert Appended([], Article(0, -1, 0, author, [], [])) == [Node(-1, Article(0, -1, 0, author, [], []))];
  }

  // What two posts by one author leave.
  lemma TwoPosts(a: Text) returns (one: Db, two: Db)
    ensures Apply(EMPTY, Post(a, [], [])) == (one, Stored(0)) && Apply(one, Post(a, [], [])) == (two, Stored(1))
    ensures one.version == 1 && two.version == 2
    ensures |one.nodes| == 1 && one.nodes[0].article == Article(0, -1, 0, a, [], [])
    ensures forall k :: 0 <= k < |two.nodes| ==> two.nodes[k].article.author == a
  {
    OnePost(a);
    one := Apply(EMPTY, Post(a, [], [])).0;
    two := Apply(one, Post(a, [], [])).0;
  }

  lemma AuthorsOf(db: Db, b: Text)
    requires forall k :: 0 <= k < |db.nodes| ==> db.nodes[k].article.author == b
    ensures forall x :: x in Articles(db) ==> x.author == b
  {
  }

  // -- What an article says -----------------------------------------------------------------------

  // Article `i` is what `w` asked for, field by field.
  predicate IsArticleOf(nodes: seq<Node>, i: nat, w: Write)
    requires i < |nodes|
  {
    var x := nodes[i].article;
    && x.id == i && x.author == w.author && x.contents == w.contents
    && match w
       case Post(_, title, _) => x.title == title && x.parentId == -1 && x.depth == 0
       case Reply(parent, _, _) =>
         && 0 <= parent < i && x.parentId == parent && x.depth == nodes[parent].article.depth + 1
         && x.title == [82, 69, 58, 32] + nodes[parent].article.title
  }

  /** What a stored write stores: one new article with the given author and contents; a post's title and
      no parent, or a reply's parent and the parent's title behind "RE: ". All older articles stay. */
  lemma StoredFields(db: Db, w: Write)
    requires Apply(db, w).1.Stored? && forall i :: 0 <= i < |db.nodes| ==> db.nodes[i].article.id == i
    ensures var (after, n) := (Apply(db, w).0, |db.nodes|);
            && Apply(db, w).1 == Stored(n) && |after.nodes| == n + 1 && IsArticleOf(after.nodes, n, w)
            && forall i :: 0 <= i < n ==> after.nodes[i].article == db.nodes[i].article
  {
  }

  lemma SameArticleOf(a: seq<Node>, b: seq<Node>, i: nat, w: Write)
    requires i < |a| && Extends(a, b) && IsArticleOf(a, i, w)
    ensures IsArticleOf(b, i, w)
  {
  }

  // Article `i` of the board after `ws` is what write `j` asked for; that write found `i` articles and left
  // one more.
  ghost predicate HoldsBy(ws: seq<Write>, i: nat, j: nat) {
    && j < |ws| && i < |Run(EMPTY, ws).nodes| && IsArticleOf(Run(EMPTY, ws).nodes, i, ws[j])
    && |Run(EMPTY, ws[..j]).nodes| == i && |Run(EMPTY, ws[..j + 1]).nodes| == i + 1
  }

  lemma HoldsAfterMore(earlier: seq<Write>, w: Write, ws: seq<Write>, i: nat, j: nat)
    requires HoldsBy(earlier, i, j) && ws == earlier + [w]
    ensures HoldsBy(ws, i, j)
  {
    assert ws[..|earlier|] == earlier && ws[..j] == earlier[..j] && ws[..j + 1] == earlier[..j + 1];
    RunExtends(ws, |earlier|);
    SameArticleOf(Run(EMPTY, earlier).nodes, Run(EMPTY, ws).nodes, i, ws[j]);
  }

  function Size(ws: seq<Write>): nat { |Run(EMPTY, ws).nodes| }

  // A write either adds the article it asks for or none.
  lemma SizeAfter(earlier: seq<Write>, w: Write, ws: seq<Write>)
    requires ws == earlier + [w]
    ensures Size(earlier) <= Size(ws) <= Size(earlier) + 1
    ensures Size(ws) > Size(earlier) ==> HoldsBy(ws, Size(earlier), |earlier|)
  {
    assert ws[..|earlier|] == earlier && ws[..|earlier| + 1] == ws;
    RunSound(earlier);
    WriteOutcome(Run(EMPTY, earlier), w);
    if Apply(Run(EMPTY, earlier), w).1.Stored? {
      StoredFields(Run(EMPTY, earlier), w);
    }
  }

  /** After any run of writes, every article of the board is what one of them asked for, field by field,
      the articles in the order of their writes: article `i` was stored by the write that found `i`
      articles and left one more. */
  lemma {:induction false} RunHolds(ws: seq<Write>, i: nat) returns (j: nat)
    requires i < Size(ws)
    ensures HoldsBy(ws, i, j)
    decreases |ws|
  {
    var earlier, w := ws[..|ws| - 1], ws[|ws| - 1];
    assert ws == earlier + [w];
    SizeAfter(earlier, w, ws);
    if i < Size(earlier) {
      j := RunHolds(earlier, i);
      HoldsAfterMore(earlier, w, ws, i, j);
    } else {
      j := |earlier|;
    }
  }
}
