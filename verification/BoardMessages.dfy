/** Which reachable boards fit the messages that carry them. */
module BoardMessages {
  import opened CTypes
  import opened ThreadOrder
  import opened Database
  import opened Board
  import opened MessageCodec
  import opened ReadCodec

  lemma {:induction false} PrefixHasNoNul(d: nat)
    ensures 0 !in Prefix(d)
  {
    if d > 0 {
      PrefixHasNoNul(d - 1);
    }
  }

  lemma {:induction false} DepthBelow(P: seq<int>, i: nat)
    requires Forest(P) && i < |P|
    ensures Depth(P, i) <= i
    decreases i
  {
    if P[i] != -1 {
      DepthBelow(P, P[i]);
    }
  }

  // Article `i` fits: author and contents do by themselves, the title if the thread's first title has
  // no NUL and leaves room for "RE: " once a level.
  ghost predicate FitsAt(nodes: seq<Node>, i: nat)
    requires i < |nodes|
  {
    var P := Parents(nodes);
    var a := nodes[i].article;
    && CText(a.author, MAX_AUTHOR) && CText(a.contents, MAX_CONTENTS)
    && Forest(P)
    && 0 !in nodes[Root(P, i)].article.title
    && |nodes[Root(P, i)].article.title| + 4 * Depth(P, i) < MAX_TITLE
  }

  lemma TitleFitsAt(nodes: seq<Node>, i: nat)
    requires Labelled(nodes) && i < |nodes|
    ensures var P := Parents(nodes);
            && Forest(P)
            && var first := nodes[Root(P, i)].article.title;
               CText(nodes[i].article.title, MAX_TITLE) <==> 0 !in first && |first| + 4 * Depth(P, i) < MAX_TITLE
  {
    var P := Parents(nodes);
    assert LabelledAt(nodes, P, i);
    PrefixHasNoNul(Depth(P, i));
    var prefix, title := Prefix(Depth(P, i)), nodes[Root(P, i)].article.title;
    assert nodes[i].article.title == prefix + title;
    assert 0 in prefix + title <==> 0 in title;
  }

  lemma NumbersFit(nodes: seq<Node>, i: nat)
    requires WellLinked(nodes) && Labelled(nodes) && i < |nodes| <= MAX_ARTICLES
    ensures Int32(nodes[i].next)
    ensures Int32(nodes[i].article.id) && Int32(nodes[i].article.parentId) && Int32(nodes[i].article.depth)
  {
    var P := Parents(nodes);
    assert LabelledAt(nodes, P, i);
    DepthBelow(P, i);
    var order := Order(nodes);
    var k := Find(order, i);
    assert nodes[order[k]].next == After(order, k);
    assert P[i] == nodes[i].article.parentId;
  }

  /** A reachable board can be sent exactly if every author, every contents and every thread's first
      title fits; its numbers always do. */
  lemma ReachableFits(ws: seq<Write>)
    ensures var db := Run(EMPTY, ws);
            Fits(db) <==> forall i :: 0 <= i < |db.nodes| ==> FitsAt(db.nodes, i)
  {
    RunSound(ws);
    var nodes := Run(EMPTY, ws).nodes;
    forall i | 0 <= i < |nodes| ensures FitsNode(nodes[i]) <==> FitsAt(nodes, i) {
      NumbersFit(nodes, i);
      TitleFitsAt(nodes, i);
    }
  }

  // -- Boards too large for a client --------------------------------------------------------------

  // `n` posts with no author or title.
  function Posts(n: nat, contents: Text): (ws: seq<Write>)
    ensures |ws| == n && forall i :: 0 <= i < n ==> ws[i] == Post([], [], contents)
  {
    seq(n, _ => Post([], [], contents))
  }

  predicate Bare(a: Article, contents: Text) { a.author == [] && a.title == [] && a.contents == contents }

  // `n` posts with these contents and nothing else.
  predicate AllBare(nodes: seq<Node>, n: nat, contents: Text) {
    |nodes| == n && forall i :: 0 <= i < n ==> Bare(nodes[i].article, contents) && nodes[i].article.parentId == -1
  }

  lemma OneMoreBare(db: Db, n: nat, contents: Text)
    requires AllBare(db.nodes, n, contents) && n < MAX_ARTICLES
    ensures AllBare(Apply(db, Post([], [], contents)).0.nodes, n + 1, contents)
  {
  }

  lemma {:induction false} PostsRun(n: nat, contents: Text)
    requires n <= MAX_ARTICLES
    ensures AllBare(Run(EMPTY, Posts(n, contents)).nodes, n, contents)
  {
    if n > 0 {
      PostsRun(n - 1, contents);
      OneMoreBare(Run(EMPTY, Posts(n - 1, contents)), n - 1, contents);
      assert Posts(n, contents)[..n - 1] == Posts(n - 1, contents);
    }
  }

  lemma {:induction false} BareSize(articles: seq<Article>, contents: Text, count: nat)
    requires count <= |articles| && forall i :: 0 <= i < |articles| ==> Bare(articles[i], contents)
    ensures |ArticlesBytes(articles, count)| == count * (15 + |contents|)
  {
    if count > 0 {
      BareSize(articles, contents, count - 1);
    }
  }

  lemma PostsFit(n: nat, contents: Text)
    requires n <= MAX_ARTICLES && CText(contents, MAX_CONTENTS)
    ensures Fits(Run(EMPTY, Posts(n, contents)))
  {
    var ws := Posts(n, contents);
    var nodes := Run(EMPTY, ws).nodes;
    RunSound(ws);
    PostsRun(n, contents);
    ReachableFits(ws);
    forall i | 0 <= i < n ensures FitsAt(nodes, i) {
      assert Parents(nodes)[i] == -1;
    }
  }

  lemma ListedBare(nodes: seq<Node>, n: nat, contents: Text)
    requires WellLinked(nodes) && AllBare(nodes, n, contents)
    ensures ReadSize(Listed(nodes)) == 20 + n * (15 + |contents|)
  {
    var listed := Listed(nodes);
    forall k | 0 <= k < |listed| ensures Bare(listed[k], contents) {
      assert listed[k] == nodes[Order(nodes)[k]].article;
    }
    BareSize(listed, contents, |listed|);
  }

  /** A read fails on boards that are legal in every other way: that of `n` posts can be stored and
      sent between servers, and overruns a client's buffer exactly if 20 + n (15 + length) exceeds
      4096 bytes. */
  lemma ReadOverruns(n: nat, contents: Text)
    requires n <= MAX_ARTICLES && CText(contents, MAX_CONTENTS)
    ensures var db := Run(EMPTY, Posts(n, contents));
            && Fits(db) && WellLinked(db.nodes)
            && (ReadSize(Listed(db.nodes)) > CLIENT_BUFFER <==> 20 + n * (15 + |contents|) > CLIENT_BUFFER)
  {
    RunSound(Posts(n, contents));
    PostsRun(n, contents);
    PostsFit(n, contents);
    ListedBare(Run(EMPTY, Posts(n, contents)).nodes, n, contents);
  }

  /** Four posts of the greatest length are enough, and so is a full board of one-letter posts. */
  lemma SmallBoardsOverrun(long: Text, letter: byte)
    requires CText(long, MAX_CONTENTS) && |long| == MAX_CONTENTS - 1 && letter != 0
    ensures var nodes := Run(EMPTY, Posts(4, long)).nodes;
            WellLinked(nodes) && ReadSize(Listed(nodes)) > CLIENT_BUFFER
    ensures var nodes := Run(EMPTY, Posts(MAX_ARTICLES, [letter])).nodes;
            WellLinked(nodes) && ReadSize(Listed(nodes)) > CLIENT_BUFFER
  {
    ReadOverruns(4, long);
    ReadOverruns(MAX_ARTICLES, [letter]);
  }
}
