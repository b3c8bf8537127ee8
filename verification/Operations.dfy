/** Everything a server does with its database, and why the slots past the last article never
    matter: what an operation answers and leaves behind depends on the live part alone. */
module Operations {
  import opened CTypes
  import opened Database
  import opened Board

  // A restore takes over the database of the given number among those at hand.
  datatype Operation = Change(w: Write) | Read | Choose(id: int) | Restore(source: nat)

  datatype Result =
    | Changed(outcome: Outcome)
    | Listing(articles: seq<Article>)
    | Chose(article: Option<Article>)
    | Restored

  ghost predicate Possible(db: Db, op: Operation, sources: seq<Db>) {
    Sound(db) && (op.Restore? ==> op.source < |sources| && Sound(sources[op.source]))
  }

  ghost function Operate(db: Db, op: Operation, sources: seq<Db>): (r: (Db, Result))
    requires Possible(db, op, sources)
    ensures Sound(r.0)
  {
    match op
    case Change(w) =>
      ApplyKeeps(db, w);
      (Apply(db, w).0, Changed(Apply(db, w).1))
    case Read => (db, Listing(Listed(db.nodes)))
    case Choose(id) => (db, Chose(Chosen(db.nodes, id)))
    case Restore(j) => (sources[j], Restored)
  }

  ghost predicate AllPossible(db: Db, ops: seq<Operation>, sources: seq<Db>) {
    && Sound(db) && (forall j :: 0 <= j < |sources| ==> Sound(sources[j]))
    && forall k :: 0 <= k < |ops| && ops[k].Restore? ==> ops[k].source < |sources|
  }

  ghost function AfterAll(db: Db, ops: seq<Operation>, sources: seq<Db>): (d: Db)
    requires AllPossible(db, ops, sources)
    ensures Sound(d)
  {
    if ops == [] then db
    else Operate(AfterAll(db, ops[..|ops| - 1], sources), ops[|ops| - 1], sources).0
  }

  ghost function AllResults(db: Db, ops: seq<Operation>, sources: seq<Db>): (r: seq<Result>)
    requires AllPossible(db, ops, sources)
    ensures |r| == |ops|
  {
    if ops == [] then []
    else
      AllResults(db, ops[..|ops| - 1], sources)
      + [Operate(AfterAll(db, ops[..|ops| - 1], sources), ops[|ops| - 1], sources).1]
  }

  // After the first `i` operations the live part is `d` and the answers so far are `rs`.
  ghost predicate Tracks(start: Db, ops: seq<Operation>, sources: seq<Db>, i: nat, d: Db, rs: seq<Result>) {
    && AllPossible(start, ops, sources) && i <= |ops|
    && d == AfterAll(start, ops[..i], sources) && rs == AllResults(start, ops[..i], sources)
  }

  lemma TracksNext(start: Db, ops: seq<Operation>, sources: seq<Db>, i: nat, d: Db, rs: seq<Result>)
    requires Tracks(start, ops, sources, i, d, rs) && i < |ops|
    ensures Possible(d, ops[i], sources)
    ensures var (after, r) := Operate(d, ops[i], sources);
            Tracks(start, ops, sources, i + 1, after, rs + [r])
  {
    assert ops[..i + 1][..i] == ops[..i];
  }

  lemma TracksAll(start: Db, ops: seq<Operation>, sources: seq<Db>, d: Db, rs: seq<Result>)
    requires Tracks(start, ops, sources, |ops|, d, rs)
    ensures d == AfterAll(start, ops, sources) && rs == AllResults(start, ops, sources)
  {
    assert ops[..|ops|] == ops;
  }

  // The article in the first slot that holds the id, if one does.
  predicate IsChoice(nodes: seq<Node>, id: int, choice: Option<Article>) {
    match choice
    case Some(article) =>
      exists i :: 0 <= i < |nodes| && nodes[i].article == article && article.id == id
                  && forall j :: 0 <= j < i ==> nodes[j].article.id != id
    case None => forall i :: 0 <= i < |nodes| ==> nodes[i].article.id != id
  }

  // The live parts of the databases at hand.
  ghost predicate AtHand(sources: seq<ArticleDatabase>, lives: seq<Db>)
    reads sources, set s | s in sources :: s.nodes
  {
    |lives| == |sources| && forall j :: 0 <= j < |sources| ==> sources[j].Valid() && sources[j].Live() == lives[j]
  }

  ghost predicate Apart(db: ArticleDatabase, sources: seq<ArticleDatabase>)
    reads db, sources
  {
    forall s :: s in sources ==> s != db && s.nodes != db.nodes
  }

  /** One operation: its answer and the live part it leaves are those of `Operate`. */
  method Perform(db: ArticleDatabase, op: Operation, sources: seq<ArticleDatabase>, ghost lives: seq<Db>,
                 out: array<Article>) returns (r: Result)
    requires db.Valid() && AtHand(sources, lives) && Apart(db, sources) && out.Length >= MAX_ARTICLES
    requires Possible(db.Live(), op, lives)
    modifies db`version, db`articleCount, db.nodes, out
    ensures db.Valid() && AtHand(sources, lives) && Apart(db, sources)
    ensures (db.Live(), r) == Operate(old(db.Live()), op, lives)
    ensures op.Change? ==> (db.Live(), r) == (Apply(old(db.Live()), op.w).0, Changed(Apply(old(db.Live()), op.w).1))
    ensures op.Read? ==> db.Live() == old(db.Live()) && r == Listing(Listed(db.Live().nodes))
    ensures op.Choose? ==> db.Live() == old(db.Live()) && r.Chose? && IsChoice(db.Live().nodes, op.id, r.article)
    ensures op.Restore? ==> db.Live() == lives[op.source] && r == Restored
  {
    match op
    case Change(w) =>
      var outcome := db.Write(w);
      r := Changed(outcome);
    case Read =>
      var count := db.Read(out);
      r := Listing(out[..count]);
    case Choose(id) =>
      var article := db.Choose(id);
      r := Chose(article);
      assert FindId(db.Live().nodes, id, 0) <= |db.Live().nodes|;
    case Restore(j) =>
      assert sources[j] in sources;
      db.Restore(sources[j]);
      r := Restored;
  }

  method PerformBoth(a: ArticleDatabase, b: ArticleDatabase, op: Operation, sources: seq<ArticleDatabase>,
                     ghost lives: seq<Db>, out: array<Article>) returns (x: Result, y: Result)
    requires a.Valid() && b.Valid() && a != b && a.nodes != b.nodes && a.Live() == b.Live()
    requires AtHand(sources, lives) && Apart(a, sources) && Apart(b, sources) && out.Length >= MAX_ARTICLES
    requires Possible(a.Live(), op, lives)
    modifies a`version, a`articleCount, a.nodes, b`version, b`articleCount, b.nodes, out
    ensures a.Valid() && b.Valid() && AtHand(sources, lives)
    ensures a.Live() == b.Live() == Operate(old(a.Live()), op, lives).0
    ensures x == y == Operate(old(a.Live()), op, lives).1
  {
    x := Perform(a, op, sources, lives, out);
    y := Perform(b, op, sources, lives, out);
  }

  /** Dead slots never matter: two databases that agree on their live slots, whatever lies beyond,
      give the same answers to every common sequence of posts, replies, reads, chooses and restores,
      and agree on their live slots afterwards. */
  method OperateAlike(a: ArticleDatabase, b: ArticleDatabase, ops: seq<Operation>, sources: seq<ArticleDatabase>,
                      ghost lives: seq<Db>, out: array<Article>) returns (ra: seq<Result>, rb: seq<Result>)
    requires a.Valid() && b.Valid() && a != b && a.nodes != b.nodes && a.Live() == b.Live()
    requires AtHand(sources, lives) && Apart(a, sources) && Apart(b, sources) && out.Length >= MAX_ARTICLES
    requires AllPossible(a.Live(), ops, lives)
    modifies a`version, a`articleCount, a.nodes, b`version, b`articleCount, b.nodes, out
    ensures a.Valid() && b.Valid()
    ensures a.Live() == b.Live() == AfterAll(old(a.Live()), ops, lives)
    ensures ra == rb == AllResults(old(a.Live()), ops, lives)
  {
    ra, rb := [], [];
    ghost var start := a.Live();
    for i := 0 to |ops|
      invariant a.Valid() && b.Valid() && AtHand(sources, lives) && Apart(a, sources) && Apart(b, sources)
      invariant a.Live() == b.Live() && ra == rb && Tracks(start, ops, lives, i, a.Live(), ra)
    {
      TracksNext(start, ops, lives, i, a.Live(), ra);
      var x, y := PerformBoth(a, b, ops[i], sources, lives, out);
      ra, rb := ra + [x], rb + [y];
    }
    TracksAll(start, ops, lives, a.Live(), ra);
  }
}
