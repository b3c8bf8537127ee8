/** The article database: an array of nodes chained by the index field `next`.

    `Db` is the part of it that counts, the version and the live slots; the class keeps 256 slots
    whose tail holds whatever earlier contents or a network message left there. */
module Database {
  import opened CTypes
  import opened ThreadOrder

  const MAX_ARTICLES: nat := 256

  datatype Article = Article(id: int, parentId: int, depth: int, author: Text, title: Text, contents: Text)
  datatype Node = Node(next: int, article: Article)
  datatype Db = Db(version: int, nodes: seq<Node>)

  datatype Outcome = Stored(id: int) | Full | InvalidId

  datatype Write =
    | Post(author: Text, title: Text, contents: Text)
    | Reply(parent: int, author: Text, contents: Text)

  const EMPTY: Db := Db(0, [])

  // "RE: "
  const RE: Text := [82, 69, 58, 32]

  // -- The operations on the live part ----------------------------------------------------------

  // The first slot that ends the chain; |nodes| if none does.
  function FirstEnd(nodes: seq<Node>, from: nat): (t: nat)
    requires from <= |nodes|
    ensures from <= t <= |nodes|
    ensures t < |nodes| ==> nodes[t].next == -1
    ensures forall i :: from <= i < t ==> nodes[i].next != -1
    decreases |nodes| - from
  {
    if from == |nodes| || nodes[from].next == -1 then from else FirstEnd(nodes, from + 1)
  }

  // The first slot that holds article `id`; |nodes| if none does.
  function FindId(nodes: seq<Node>, id: int, from: nat): (p: nat)
    requires from <= |nodes|
    ensures from <= p <= |nodes|
    ensures p < |nodes| ==> nodes[p].article.id == id
    ensures forall i :: from <= i < p ==> nodes[i].article.id != id
    decreases |nodes| - from
  {
    if from == |nodes| || nodes[from].article.id == id then from else FindId(nodes, id, from + 1)
  }

  // The article in that slot, if there is one.
  function Chosen(nodes: seq<Node>, id: int): Option<Article> {
    var p := FindId(nodes, id, 0);
    if p < |nodes| then Some(nodes[p].article) else None
  }

  // The last slot before `to` that holds a reply to `parent`; -1 if none does.
  function LastReply(nodes: seq<Node>, parent: int, to: nat): (c: int)
    requires to <= |nodes|
    ensures -1 <= c < to
    ensures c >= 0 ==> nodes[c].article.parentId == parent
    ensures forall i :: c < i < to && 0 <= i ==> nodes[i].article.parentId != parent
  {
    if to == 0 then -1
    else if nodes[to - 1].article.parentId == parent then to - 1
    else LastReply(nodes, parent, to - 1)
  }

  function Relink(nodes: seq<Node>, at: nat, next: int): (r: seq<Node>)
    requires at < |nodes|
    ensures |r| == |nodes|
    ensures forall i :: 0 <= i < |nodes| ==> r[i].article == nodes[i].article
    ensures forall i :: 0 <= i < |nodes| ==> r[i].next == if i == at then next else nodes[i].next
  {
    nodes[at := nodes[at].(next := next)]
  }

  // A new last node, linked in after slot `at`.
  function Inserted(nodes: seq<Node>, at: nat, article: Article): (r: seq<Node>)
    requires at < |nodes|
    ensures |r| == |nodes| + 1 && r[|nodes|].article == article
    ensures forall i :: 0 <= i < |nodes| ==> r[i].article == nodes[i].article
  {
    Relink(nodes, at, |nodes|) + [Node(nodes[at].next, article)]
  }

  // A new last node, linked in at the end of the chain.
  function Appended(nodes: seq<Node>, article: Article): (r: seq<Node>)
    ensures |r| == |nodes| + 1 && r[|nodes|].article == article
    ensures forall i :: 0 <= i < |nodes| ==> r[i].article == nodes[i].article
  {
    var end := FirstEnd(nodes, 0);
    (if end < |nodes| then Relink(nodes, end, |nodes|) else nodes) + [Node(-1, article)]
  }

  function AfterPost(db: Db, author: Text, title: Text, contents: Text): (Db, Outcome) {
    if |db.nodes| >= MAX_ARTICLES then (db, Full)
    else
      var n := |db.nodes|;
      (Db(db.version + 1, Appended(db.nodes, Article(n, -1, 0, author, title, contents))), Stored(n))
  }

  // The slot a reply to the article in slot `p` is linked in after.
  function AnchorSlot(nodes: seq<Node>, p: nat): (at: nat)
    requires p < |nodes|
    ensures at < |nodes|
  {
    var child := LastReply(nodes, nodes[p].article.id, |nodes|);
    if child != -1 then child else p
  }

  function AfterReply(db: Db, parent: int, author: Text, contents: Text): (Db, Outcome) {
    if |db.nodes| >= MAX_ARTICLES then (db, Full)
    else
      var n := |db.nodes|;
      var p := FindId(db.nodes, parent, 0);
      if p == n then (db, InvalidId)
      else
        var article := Article(n, parent, db.nodes[p].article.depth + 1,
                               author, RE + db.nodes[p].article.title, contents);
        (Db(db.version + 1, Inserted(db.nodes, AnchorSlot(db.nodes, p), article)), Stored(n))
  }

  function Apply(db: Db, w: Write): (Db, Outcome) {
    match w
    case Post(author, title, contents) => AfterPost(db, author, title, contents)
    case Reply(parent, author, contents) => AfterReply(db, parent, author, contents)
  }

  // The database after the writes of `ws`, first to last.
  function Run(db: Db, ws: seq<Write>): Db {
    if ws == [] then db else Apply(Run(db, ws[..|ws| - 1]), ws[|ws| - 1]).0
  }

  function Outcomes(db: Db, ws: seq<Write>): (r: seq<Outcome>)
    ensures |r| == |ws|
  {
    if ws == [] then []
    else Outcomes(db, ws[..|ws| - 1]) + [Apply(Run(db, ws[..|ws| - 1]), ws[|ws| - 1]).1]
  }

  // -- The chain ----------------------------------------------------------------------------------

  // `order` is the one chain from slot 0 through every slot to the single -1.
  ghost predicate Chain(nodes: seq<Node>, order: seq<int>) {
    && Listing(order, |nodes|)
    && Linked(nodes, order)
  }

  ghost predicate Linked(nodes: seq<Node>, order: seq<int>) {
    && (forall k :: 0 <= k < |order| ==> 0 <= order[k] < |nodes|)
    && (order != [] ==> order[0] == 0)
    && (forall k :: 0 <= k < |order| ==> nodes[order[k]].next == After(order, k))
  }

  function After(order: seq<int>, k: nat): int {
    if k + 1 < |order| then order[k + 1] else -1
  }

  lemma ChainNext(nodes: seq<Node>, order: seq<int>, k: nat)
    requires Chain(nodes, order) && k < |order|
    ensures 0 <= order[k] < |nodes| && nodes[order[k]].next == After(order, k)
    ensures Along(nodes, order)[k] == nodes[order[k]].article
  {
  }

  function Parents(nodes: seq<Node>): (P: seq<int>)
    ensures |P| == |nodes|
    ensures forall i :: 0 <= i < |P| ==> P[i] == nodes[i].article.parentId
  {
    seq(|nodes|, i requires 0 <= i < |nodes| => nodes[i].article.parentId)
  }

  // Articles are numbered by slot, answer earlier ones, and are chained by the ordering law.
  ghost predicate WellLinked(nodes: seq<Node>) {
    && (forall i :: 0 <= i < |nodes| ==> nodes[i].article.id == i)
    && Forest(Parents(nodes))
    && Chain(nodes, Order(nodes))
  }

  function Order(nodes: seq<Node>): seq<int>
    requires Forest(Parents(nodes))
  {
    InsertOrder(Anchors(Parents(nodes)))
  }

  function Along(nodes: seq<Node>, order: seq<int>): (s: seq<Article>)
    requires forall k :: 0 <= k < |order| ==> 0 <= order[k] < |nodes|
    ensures |s| == |order|
    ensures forall k :: 0 <= k < |order| ==> s[k] == nodes[order[k]].article
  {
    seq(|order|, k requires 0 <= k < |order| => nodes[order[k]].article)
  }

  // What a read returns.
  ghost function Listed(nodes: seq<Node>): seq<Article>
    requires WellLinked(nodes)
  {
    Along(nodes, Order(nodes))
  }

  // -- The database itself ------------------------------------------------------------------------

  class ArticleDatabase {
    var version: int
    var articleCount: int
    var nodes: array<Node>

    ghost predicate Valid()
      reads this
    {
      0 <= articleCount <= MAX_ARTICLES == nodes.Length
    }

    ghost function Live(): Db
      requires Valid()
      reads this, nodes
    {
      Db(version, nodes[..articleCount])
    }

    /** Empty, whatever the slots hold. */
    constructor (slots: array<Node>)
      requires slots.Length == MAX_ARTICLES
      ensures Valid() && nodes == slots && Live() == EMPTY
    {
      version, articleCount, nodes := 0, 0, slots;
    }

    /** Appends an article at the end of the chain. */
    method Post(author: Text, title: Text, contents: Text) returns (result: Outcome)
      requires Valid()
      modifies this`version, this`articleCount, nodes
      ensures Valid()
      ensures (Live(), result) == AfterPost(old(Live()), author, title, contents)
    {
      if articleCount >= MAX_ARTICLES {
        return Full;
      }
      var id := articleCount;
      articleCount := articleCount + 1;
      ghost var before := old(Live()).nodes;
      var i := 0;
      while i < articleCount && nodes[i].next != -1
        invariant 0 <= i <= articleCount
        invariant forall j :: 0 <= j < i ==> nodes[j].next != -1
      {
        i := i + 1;
      }
      assert FirstEnd(before, 0) == if i < id then i else id;
      if i < articleCount {
        nodes[i] := nodes[i].(next := id);
      }
      nodes[id] := Node(-1, Article(id, -1, 0, author, title, contents));
      version := version + 1;
      result := Stored(id);
      assert nodes[..articleCount] == AfterPost(old(Live()), author, title, contents).0.nodes;
    }

    method FindSlot(id: int) returns (p: nat)
      requires Valid()
      ensures p == FindId(Live().nodes, id, 0)
    {
      p := 0;
      while p < articleCount && nodes[p].article.id != id
        invariant p <= articleCount
        invariant FindId(Live().nodes, id, 0) == FindId(Live().nodes, id, p)
      {
        p := p + 1;
      }
    }

    method LatestReplySlot(parent: int) returns (child: int)
      requires Valid()
      ensures child == LastReply(Live().nodes, parent, articleCount)
    {
      child := articleCount - 1;
      while child >= 0 && nodes[child].article.parentId != parent
        invariant -1 <= child < articleCount
        invariant LastReply(Live().nodes, parent, articleCount) == LastReply(Live().nodes, parent, child + 1)
      {
        child := child - 1;
      }
    }

    // Stores `article` in the first dead slot and links it in after slot `at`.
    method Insert(at: nat, article: Article)
      requires Valid() && at < articleCount < MAX_ARTICLES
      modifies this`version, this`articleCount, nodes
      ensures Valid()
      ensures var was := old(Live());
              Live() == Db(was.version + 1, Inserted(was.nodes, at, article))
    {
      var savedNext := nodes[at].next;
      nodes[at] := nodes[at].(next := articleCount);
      nodes[articleCount] := Node(savedNext, article);
      articleCount := articleCount + 1;
      version := version + 1;
    }

    /** Splices a reply in after the parent's latest child, or after the parent. */
    method Reply(parent: int, author: Text, contents: Text) returns (result: Outcome)
      requires Valid()
      modifies this`version, this`articleCount, nodes
      ensures Valid()
      ensures (Live(), result) == AfterReply(old(Live()), parent, author, contents)
    {
      if articleCount >= MAX_ARTICLES {
        return Full;
      }
      var p := FindSlot(parent);
      if p == articleCount {
        return InvalidId;
      }
      var child := LatestReplySlot(parent);
      var article := Article(articleCount, parent, nodes[p].article.depth + 1,
                             author, RE + nodes[p].article.title, contents);
      var at := if child != -1 then child else p;
      Insert(at, article);
      result := Stored(article.id);
    }

    /** Copies the articles out in chain order. */
    method Read(out: array<Article>) returns (count: nat)
      requires Valid() && out.Length >= MAX_ARTICLES
      requires WellLinked(Live().nodes)
      modifies out
      ensures count == |Live().nodes|
      ensures out[..count] == Listed(Live().nodes)
      ensures forall k :: 0 <= k < count ==>
                0 <= Order(Live().nodes)[k] < articleCount && out[k] == nodes[Order(Live().nodes)[k]].article
      ensures forall k :: count <= k < out.Length ==> out[k] == old(out[k])
    {
      ghost var order := Order(Live().nodes);
      count := FollowChain(out, order);
      forall k | 0 <= k < count ensures 0 <= order[k] < articleCount && out[k] == nodes[order[k]].article {
        ChainNext(Live().nodes, order, k);
        assert out[..count][k] == Along(Live().nodes, order)[k];
      }
    }

    method FollowChain(out: array<Article>, ghost order: seq<int>) returns (count: nat)
      requires Valid() && out.Length >= MAX_ARTICLES
      requires Chain(Live().nodes, order)
      modifies out
      ensures count == |order|
      ensures out[..count] == Along(Live().nodes, order)
      ensures forall k :: count <= k < out.Length ==> out[k] == old(out[k])
    {
      ghost var live := Live().nodes;
      ghost var all := Along(live, order);
      var next := 0;
      count := 0;
      while count < articleCount
        invariant 0 <= count <= articleCount
        invariant count < articleCount ==> next == order[count]
        invariant out[..count] == all[..count]
        invariant forall k :: count <= k < out.Length ==> out[k] == old(out[k])
      {
        ChainNext(live, order, count);
        ghost var done := out[..count];
        out[count] := nodes[next].article;
        assert out[..count + 1] == done + [all[count]];
        next := nodes[next].next;
        count := count + 1;
      }
    }

    /** The article in the first live slot that holds the id. */
    method Choose(id: int) returns (result: Option<Article>)
      requires Valid()
      ensures result == Chosen(Live().nodes, id)
      ensures result.Some? ==> exists i :: 0 <= i < articleCount && result.value == nodes[i].article
                                           && nodes[i].article.id == id
                                           && forall j :: 0 <= j < i ==> nodes[j].article.id != id
      ensures result.None? ==> forall i :: 0 <= i < |Live().nodes| ==> Live().nodes[i].article.id != id
    {
      for i := 0 to articleCount
        invariant forall j :: 0 <= j < i ==> nodes[j].article.id != id
      {
        if nodes[i].article.id == id {
          assert FindId(Live().nodes, id, 0) == i;
          return Some(nodes[i].article);
        }
      }
      result := None;
    }

    /** Copies the whole structure out, dead slots included. */
    method Backup(out: ArticleDatabase)
      requires Valid() && out != this && out.nodes != nodes && out.nodes.Length == MAX_ARTICLES
      modifies out`version, out`articleCount, out.nodes
      ensures out.Valid() && out.Live() == Live()
      ensures out.nodes[..] == nodes[..]
    {
      out.version, out.articleCount := version, articleCount;
      forall i | 0 <= i < MAX_ARTICLES {
        out.nodes[i] := nodes[i];
      }
    }

    /** Overwrites the whole structure, with no test of the version. */
    method Restore(from: ArticleDatabase)
      requires nodes.Length == MAX_ARTICLES
      requires from.Valid() && from != this && from.nodes != nodes
      modifies this`version, this`articleCount, nodes
      ensures Valid() && Live() == from.Live()
      ensures nodes[..] == from.nodes[..]
    {
      version, articleCount := from.version, from.articleCount;
      forall i | 0 <= i < MAX_ARTICLES {
        nodes[i] := from.nodes[i];
      }
    }

    method Write(w: Write) returns (result: Outcome)
      requires Valid()
      modifies this`version, this`articleCount, nodes
      ensures Valid()
      ensures (Live(), result) == Apply(old(Live()), w)
    {
      match w
      case Post(author, title, contents) => result := Post(author, title, contents);
      case Reply(parent, author, contents) => result := Reply(parent, author, contents);
    }
  }

  lemma OneMoreWrite(db: Db, ws: seq<Write>, i: nat)
    requires i < |ws|
    ensures Run(db, ws[..i + 1]) == Apply(Run(db, ws[..i]), ws[i]).0
    ensures Outcomes(db, ws[..i + 1]) == Outcomes(db, ws[..i]) + [Apply(Run(db, ws[..i]), ws[i]).1]
  {
    assert ws[..i + 1][..i] == ws[..i];
  }

  /** Dead slots never matter: two databases that agree on their live slots answer the same writes
      alike and agree afterwards, whatever lies beyond. */
  method WriteAlike(a: ArticleDatabase, b: ArticleDatabase, ws: seq<Write>) returns (ra: seq<Outcome>, rb: seq<Outcome>)
    requires a.Valid() && b.Valid() && a != b && a.nodes != b.nodes && a.Live() == b.Live()
    modifies a`version, a`articleCount, a.nodes, b`version, b`articleCount, b.nodes
    ensures a.Valid() && b.Valid()
    ensures a.Live() == b.Live() == Run(old(a.Live()), ws)
    ensures ra == rb == Outcomes(old(a.Live()), ws)
  {
    ra, rb := [], [];
    ghost var start := a.Live();
    assert ws[..|ws|] == ws;
    for i := 0 to |ws|
      invariant a.Valid() && b.Valid()
      invariant a.Live() == b.Live() == Run(start, ws[..i])
      invariant ra == rb == Outcomes(start, ws[..i])
    {
      OneMoreWrite(start, ws, i);
      var x := a.Write(ws[i]);
      var y := b.Write(ws[i]);
      ra, rb := ra + [x], rb + [y];
    }
  }
}
