/** Where every field of a message stands, byte by byte. */
module Layout {
  import opened CTypes
  import opened Database
  import opened MessageCodec
  import opened ReadCodec
  import Download

  // -- Words and texts in place -------------------------------------------------------------------

  // The four bytes from `pos` on are `w`, most significant byte first.
  predicate WordAt(b: seq<byte>, pos: nat, w: int) {
    pos + 4 <= |b|
    && w == (b[pos] as int) * 16777216 + (b[pos + 1] as int) * 65536 + (b[pos + 2] as int) * 256 + b[pos + 3]
  }

  // The same for a signed integer in two's complement.
  predicate IntAt(b: seq<byte>, pos: nat, v: int) { WordAt(b, pos, if v < 0 then v + 4294967296 else v) }

  // The text stands there with a NUL behind it.
  predicate TextAt(b: seq<byte>, pos: nat, t: Text) {
    pos + |t| < |b| && b[pos..pos + |t|] == t && b[pos + |t|] == 0
  }

  lemma BytesPlace(w: nat)
    requires w < TWO32
    ensures WordAt(Bytes(w), 0, w)
  {
    WordRoundTrip(w);
  }

  lemma WordPlace(b: seq<byte>, pos: nat, w: nat)
    requires w < TWO32 && At(b, pos, Bytes(w))
    ensures WordAt(b, pos, w)
  {
    BytesPlace(w);
    var part := b[pos..pos + 4];
    assert part == Bytes(w);
    assert b[pos] == part[0] && b[pos + 1] == part[1] && b[pos + 2] == part[2] && b[pos + 3] == part[3];
  }

  lemma IntPlace(b: seq<byte>, pos: nat, v: int)
    requires Int32(v) && At(b, pos, IntBytes(v))
    ensures IntAt(b, pos, v)
  {
    WordPlace(b, pos, ToWord(v));
  }

  lemma TextPlace(b: seq<byte>, pos: nat, t: Text)
    requires At(b, pos, TextBytes(t))
    ensures TextAt(b, pos, t)
  {
    AtSplit(b, pos, t, [0]);
    assert b[pos + |t|..pos + |t| + 1][0] == b[pos + |t|];
  }

  // -- Headers ------------------------------------------------------------------------------------

  // The header of a message: the bytes 12 AB 34 CD, then kind, id and the number of bytes that follow.
  predicate HeaderAt(b: seq<byte>, kind: int, id: int, size: int) {
    |b| >= 16 && b[..4] == [18, 171, 52, 205] && WordAt(b, 4, kind) && IntAt(b, 8, id) && WordAt(b, 12, size)
  }

  lemma HeaderPlace(b: seq<byte>, kind: nat, id: int, size: nat)
    requires kind < TWO32 && Int32(id) && size < TWO32 && At(b, 0, HeaderBytes(kind, id, size))
    ensures HeaderAt(b, kind, id, size)
  {
    AtSplit(b, 0, Bytes(MAGIC) + Bytes(kind) + IntBytes(id), Bytes(size));
    AtSplit(b, 0, Bytes(MAGIC) + Bytes(kind), IntBytes(id));
    AtSplit(b, 0, Bytes(MAGIC), Bytes(kind));
    WordPlace(b, 4, kind);
    IntPlace(b, 8, id);
    WordPlace(b, 12, size);
  }

  // -- Articles and databases ---------------------------------------------------------------------

  // Id, parent, depth, author, title, contents, one behind the other.
  predicate ArticleAt(b: seq<byte>, pos: nat, a: Article) {
    NumbersAt(b, pos, a.id, a.parentId, a.depth) && TextsAt(b, pos + 12, a.author, a.title, a.contents)
  }

  predicate NumbersAt(b: seq<byte>, pos: nat, id: int, parentId: int, depth: int) {
    IntAt(b, pos, id) && IntAt(b, pos + 4, parentId) && IntAt(b, pos + 8, depth)
  }

  predicate TextsAt(b: seq<byte>, pos: nat, author: Text, title: Text, contents: Text) {
    && TextAt(b, pos, author) && TextAt(b, pos + |author| + 1, title)
    && TextAt(b, pos + |author| + |title| + 2, contents)
  }

  lemma NumbersPlace(b: seq<byte>, pos: nat, id: int, parentId: int, depth: int)
    requires Int32(id) && Int32(parentId) && Int32(depth)
    requires At(b, pos, IntBytes(id)) && At(b, pos + 4, IntBytes(parentId)) && At(b, pos + 8, IntBytes(depth))
    ensures NumbersAt(b, pos, id, parentId, depth)
  {
    IntPlace(b, pos, id);
    IntPlace(b, pos + 4, parentId);
    IntPlace(b, pos + 8, depth);
  }

  lemma TextsPlace(b: seq<byte>, pos: nat, author: Text, title: Text, contents: Text)
    requires At(b, pos, TextBytes(author)) && At(b, pos + |author| + 1, TextBytes(title))
    requires At(b, pos + |author| + |title| + 2, TextBytes(contents))
    ensures TextsAt(b, pos, author, title, contents)
  {
    TextPlace(b, pos, author);
    TextPlace(b, pos + |author| + 1, title);
    TextPlace(b, pos + |author| + |title| + 2, contents);
  }

  lemma ArticlePlace(b: seq<byte>, pos: nat, a: Article)
    requires FitsArticle(a) && At(b, pos, ArticleBytes(a))
    ensures ArticleAt(b, pos, a)
  {
    ArticleParts(b, pos, a);
    NumbersPlace(b, pos, a.id, a.parentId, a.depth);
    TextsPlace(b, pos + 12, a.author, a.title, a.contents);
  }

  // How many bytes an article takes.
  function Size(a: Article): nat { 15 + |a.author| + |a.title| + |a.contents| }

  // Where node `i` begins: behind the header, the version, the count and the nodes before it.
  function NodePos(ns: seq<Node>, i: nat): nat
    requires i <= |ns|
  {
    if i == 0 then 24 else NodePos(ns, i - 1) + 4 + Size(ns[i - 1].article)
  }

  lemma {:induction false} NodePosIs(ns: seq<Node>, i: nat)
    requires i <= |ns|
    ensures NodePos(ns, i) == 24 + |NodesBytes(ns, i)|
  {
    if i > 0 {
      NodePosIs(ns, i - 1);
    }
  }

  // A message of this kind with this database: version at 16, count at 20, and each node's link followed
  // by its article.
  predicate DbLayout(b: seq<byte>, kind: int, id: int, db: Db) {
    && HeaderAt(b, kind, id, NodePos(db.nodes, |db.nodes|) - 16)
    && IntAt(b, 16, db.version) && IntAt(b, 20, |db.nodes|)
    && forall i :: 0 <= i < |db.nodes| ==> NodeLayout(b, db.nodes, i)
  }

  predicate NodeLayout(b: seq<byte>, ns: seq<Node>, i: nat)
    requires i < |ns|
  {
    IntAt(b, NodePos(ns, i), ns[i].next) && ArticleAt(b, NodePos(ns, i) + 4, ns[i].article)
  }

  lemma NodePlace(b: seq<byte>, ns: seq<Node>, i: nat)
    requires NodesIn(b, 24, ns) && i < |ns|
    ensures NodeLayout(b, ns, i)
  {
    var pos := NodePos(ns, i);
    NodePosIs(ns, i);
    NodesAt(b, 24, ns, |ns|, i);
    AtSplit(b, pos, IntBytes(ns[i].next), ArticleBytes(ns[i].article));
    IntPlace(b, pos, ns[i].next);
    ArticlePlace(b, pos + 4, ns[i].article);
  }

  /** Every field of a built database message stands where the layout says. */
  lemma DbPlace(b: seq<byte>, kind: nat, id: int, db: Db)
    requires kind < TWO32 && Int32(id) && Fits(db)
    requires |DbBytes(db)| < TWO32 && At(b, 0, HeaderBytes(kind, id, |DbBytes(db)|) + DbBytes(db))
    ensures DbLayout(b, kind, id, db)
  {
    AtSplit(b, 0, HeaderBytes(kind, id, |DbBytes(db)|), DbBytes(db));
    HeaderPlace(b, kind, id, |DbBytes(db)|);
    NodePosIs(db.nodes, |db.nodes|);
    DbParts(b, db);
    IntPlace(b, 16, db.version);
    IntPlace(b, 20, |db.nodes|);
    forall i | 0 <= i < |db.nodes| ensures NodeLayout(b, db.nodes, i) {
      NodePlace(b, db.nodes, i);
    }
  }

  /** What a push and a pull answer look like on the wire. */
  method BuildPush(buf: array<byte>, id: int, db: ArticleDatabase)
    requires db.Valid() && Fits(db.Live()) && Int32(id) && buf.Length >= MAX_MSG_SIZE
    modifies buf
    ensures DbLayout(buf[..], 0x6000, id, db.Live())
  {
    SizeBound(db.Live());
    var written := BuildDb(buf, DB_PUSH_REQUEST, id, db);
    DbPlace(buf[..], DB_PUSH_REQUEST, id, db.Live());
  }

  method BuildPullAnswer(buf: array<byte>, id: int, db: ArticleDatabase)
    requires db.Valid() && Fits(db.Live()) && Int32(id) && buf.Length >= MAX_MSG_SIZE
    modifies buf
    ensures DbLayout(buf[..], 0x7001, id, db.Live())
  {
    SizeBound(db.Live());
    var written := BuildDb(buf, DB_PULL_RESPONSE, id, db);
    DbPlace(buf[..], DB_PULL_RESPONSE, id, db.Live());
  }

  // -- The answer to a read -----------------------------------------------------------------------

  // Where article `i` begins: behind the header, the count and the articles before it.
  function ArticlePos(articles: seq<Article>, i: nat): nat
    requires i <= |articles|
  {
    if i == 0 then 20 else ArticlePos(articles, i - 1) + Size(articles[i - 1])
  }

  lemma {:induction false} ArticlePosIs(articles: seq<Article>, i: nat)
    requires i <= |articles|
    ensures ArticlePos(articles, i) == 20 + |ArticlesBytes(articles, i)|
  {
    if i > 0 {
      ArticlePosIs(articles, i - 1);
    }
  }

  // An answer to a read: the count at 16 and the articles behind it.
  predicate ReadLayout(b: seq<byte>, id: int, articles: seq<Article>) {
    && HeaderAt(b, 0x3001, id, ArticlePos(articles, |articles|) - 16) && IntAt(b, 16, |articles|)
    && forall i :: 0 <= i < |articles| ==> ArticleAt(b, ArticlePos(articles, i), articles[i])
  }

  /** Every field of an answer to a read stands where the layout says. */
  lemma ReadPlace(b: seq<byte>, id: int, articles: seq<Article>)
    requires FitsArticles(articles) && Int32(id) && |ReadBytes(articles)| < TWO32
    requires At(b, 0, HeaderBytes(READ_RESPONSE, id, |ReadBytes(articles)|) + ReadBytes(articles))
    ensures ReadLayout(b, id, articles)
  {
    AtSplit(b, 0, HeaderBytes(READ_RESPONSE, id, |ReadBytes(articles)|), ReadBytes(articles));
    HeaderPlace(b, READ_RESPONSE, id, |ReadBytes(articles)|);
    AtSplit(b, 16, IntBytes(|articles|), ArticlesBytes(articles, |articles|));
    IntPlace(b, 16, |articles|);
    ArticlePosIs(articles, |articles|);
    forall i | 0 <= i < |articles| ensures ArticleAt(b, ArticlePos(articles, i), articles[i]) {
      ArticlePosIs(articles, i);
      ArticleIn(b, 20, articles, i);
      ArticlePlace(b, ArticlePos(articles, i), articles[i]);
    }
  }

  method BuildReadAnswer(buf: array<byte>, id: int, articles: seq<Article>)
    requires FitsArticles(articles) && Int32(id) && buf.Length >= MAX_MSG_SIZE
    modifies buf
    ensures ReadLayout(buf[..], id, articles)
  {
    ReadFits(articles);
    var written := BuildRead(buf, id, articles);
    ReadPlace(buf[..], id, articles);
  }

  // -- The answer to a download -------------------------------------------------------------------

  // A download answer: name, size, checksum, and the file's bytes in their order.
  predicate FileLayout(b: seq<byte>, id: int, info: FileInfo, data: seq<bv8>) {
    var pos := 17 + |info.name|;
    && HeaderAt(b, 0x7001, id, |info.name| + 9 + |data|)
    && TextAt(b, 16, info.name) && WordAt(b, pos, |data|) && WordAt(b, pos + 4, info.checksum as int)
    && pos + 8 + |data| <= |b|
    && forall k :: 0 <= k < |data| ==> b[pos + 8 + k] == data[k] as int
  }

  lemma RawPlace(b: seq<byte>, pos: nat, data: seq<bv8>)
    requires At(b, pos, Download.Raw(data))
    ensures forall k :: 0 <= k < |data| ==> b[pos + k] == data[k] as int
  {
    forall k | 0 <= k < |data| ensures b[pos + k] == data[k] as int {
      assert b[pos..pos + |data|][k] == Download.Raw(data)[k];
    }
  }

  /** Every field of a download answer stands where the layout says. */
  lemma FilePlace(b: seq<byte>, id: int, info: FileInfo, data: seq<bv8>)
    requires Download.FitsFile(info, data) && Int32(id)
    requires At(b, 0, HeaderBytes(Download.DOWNLOAD_RESPONSE, id, |Download.FileBytes(info, data)|)
                      + Download.FileBytes(info, data))
    ensures FileLayout(b, id, info, data)
  {
    var body := Download.FileBytes(info, data);
    AtSplit(b, 0, HeaderBytes(Download.DOWNLOAD_RESPONSE, id, |body|), body);
    HeaderPlace(b, Download.DOWNLOAD_RESPONSE, id, |body|);
    Download.FileParts(b, info, data);
    TextPlace(b, 16, info.name);
    WordPlace(b, 17 + |info.name|, |data|);
    WordPlace(b, 21 + |info.name|, Download.CheckWord(info.checksum));
    RawPlace(b, 25 + |info.name|, data);
  }
}
