/** The byte form of the messages that carry a whole database, pushes and pull answers, and the parts
    every message is made of. All words are 32 bits, most significant byte first; texts end in a NUL. */
module MessageCodec {
  import opened CTypes
  import opened Database

  const MAGIC: nat := 0x12AB34CD
  const HEADER_SIZE: nat := 16
  const DB_PUSH_REQUEST: nat := 0x6000
  const DB_PULL_RESPONSE: nat := 0x7001

  const MAX_AUTHOR: nat := 128
  const MAX_TITLE: nat := 128
  const MAX_CONTENTS: nat := 1024

  // sizeof(ArticleNode), sizeof(ArticleDatabase) and the largest message
  const NODE_SIZE: nat := 4 + 12 + MAX_AUTHOR + MAX_TITLE + MAX_CONTENTS
  const DATABASE_SIZE: nat := 8 + MAX_ARTICLES * NODE_SIZE
  const MAX_MSG_SIZE: nat := DATABASE_SIZE + HEADER_SIZE

  const TWO31: int := 0x8000_0000
  const TWO32: int := 0x1_0000_0000

  // -- Words and texts ----------------------------------------------------------------------------

  predicate Int32(v: int) { -TWO31 <= v < TWO31 }

  // The unsigned word a 32-bit integer is sent as, and back.
  function ToWord(v: int): (w: nat)
    ensures w < TWO32
  {
    v % TWO32
  }

  function ToInt(w: nat): (v: int)
    requires w < TWO32
    ensures Int32(v)
  {
    if w >= TWO31 then w - TWO32 else w
  }

  function Bytes(w: nat): (b: seq<byte>)
    requires w < TWO32
    ensures |b| == 4
  {
    [w / 256 / 256 / 256, w / 256 / 256 % 256, w / 256 % 256, w % 256]
  }

  function Word(b: seq<byte>): (w: nat)
    requires |b| == 4
    ensures w < TWO32
  {
    (((b[0] as int) * 256 + b[1]) * 256 + b[2]) * 256 + b[3]
  }

  function IntBytes(v: int): (b: seq<byte>)
    ensures |b| == 4
  {
    Bytes(ToWord(v))
  }

  lemma WordRoundTrip(w: nat)
    requires w < TWO32
    ensures Word(Bytes(w)) == w
  {
    var q := w / 256;
    var r := q / 256;
    assert w == q * 256 + w % 256 && q == r * 256 + q % 256 && r == r / 256 * 256 + r % 256;
  }

  lemma IntRoundTrip(v: int)
    requires Int32(v)
    ensures ToInt(Word(IntBytes(v))) == v
  {
    WordRoundTrip(ToWord(v));
  }

  predicate CText(t: Text, size: nat) { 0 !in t && |t| < size }

  function TextBytes(t: Text): seq<byte> { t + [0] }

  // -- Messages -----------------------------------------------------------------------------------

  predicate FitsArticle(a: Article) {
    && Int32(a.id) && Int32(a.parentId) && Int32(a.depth)
    && CText(a.author, MAX_AUTHOR) && CText(a.title, MAX_TITLE) && CText(a.contents, MAX_CONTENTS)
  }

  predicate Fits(db: Db) {
    && Int32(db.version) && |db.nodes| <= MAX_ARTICLES
    && forall i :: 0 <= i < |db.nodes| ==> FitsNode(db.nodes[i])
  }

  predicate FitsNode(n: Node) { Int32(n.next) && FitsArticle(n.article) }

  function ArticleBytes(a: Article): (b: seq<byte>)
    ensures |b| == 15 + |a.author| + |a.title| + |a.contents|
  {
    IntBytes(a.id) + IntBytes(a.parentId) + IntBytes(a.depth)
    + TextBytes(a.author) + TextBytes(a.title) + TextBytes(a.contents)
  }

  function NodeBytes(n: Node): (b: seq<byte>)
    ensures |b| == 19 + |n.article.author| + |n.article.title| + |n.article.contents|
  {
    IntBytes(n.next) + ArticleBytes(n.article)
  }

  // The first `count` nodes.
  function NodesBytes(ns: seq<Node>, count: nat): seq<byte>
    requires count <= |ns|
  {
    if count == 0 then [] else NodesBytes(ns, count - 1) + NodeBytes(ns[count - 1])
  }

  function DbBytes(db: Db): (b: seq<byte>)
  {
    IntBytes(db.version) + IntBytes(|db.nodes|) + NodesBytes(db.nodes, |db.nodes|)
  }

  function HeaderBytes(kind: nat, id: int, size: nat): (b: seq<byte>)
    requires kind < TWO32 && size < TWO32
    ensures |b| == HEADER_SIZE
  {
    Bytes(MAGIC) + Bytes(kind) + IntBytes(id) + Bytes(size)
  }

  // -- The size of a database message -------------------------------------------------------------

  ghost predicate AtLimit(n: Node) {
    && |n.article.author| == MAX_AUTHOR - 1
    && |n.article.title| == MAX_TITLE - 1
    && |n.article.contents| == MAX_CONTENTS - 1
  }

  lemma {:induction false} NodesSize(ns: seq<Node>, count: nat)
    requires (forall i :: 0 <= i < |ns| ==> FitsNode(ns[i])) && count <= |ns|
    ensures |NodesBytes(ns, count)| <= count * NODE_SIZE
    ensures |NodesBytes(ns, count)| == count * NODE_SIZE <==> forall i :: 0 <= i < count ==> AtLimit(ns[i])
  {
    if count > 0 {
      NodesSize(ns, count - 1);
      assert AtLimit(ns[count - 1]) <==> |NodeBytes(ns[count - 1])| == NODE_SIZE;
    }
  }

  /** A database message never exceeds MAX_MSG_SIZE, and reaches it exactly when all 256 slots are
      live and every text fills its array. */
  lemma SizeBound(db: Db)
    requires Fits(db)
    ensures HEADER_SIZE + |DbBytes(db)| <= MAX_MSG_SIZE
    ensures MAX_MSG_SIZE == 331800
    ensures HEADER_SIZE + |DbBytes(db)| == MAX_MSG_SIZE
            <==> |db.nodes| == MAX_ARTICLES && forall i :: 0 <= i < |db.nodes| ==> AtLimit(db.nodes[i])
  {
    NodesSize(db.nodes, |db.nodes|);
  }

  // -- Unique readability -------------------------------------------------------------------------

  // `b` holds `part` from position `pos` on.
  predicate At(b: seq<byte>, pos: nat, part: seq<byte>) {
    pos + |part| <= |b| && b[pos..pos + |part|] == part
  }

  lemma AtSplit(b: seq<byte>, pos: nat, x: seq<byte>, y: seq<byte>)
    ensures At(b, pos, x + y) <==> At(b, pos, x) && At(b, pos + |x|, y)
  {
    if At(b, pos, x + y) {
      assert b[pos..pos + |x + y|][..|x|] == b[pos..pos + |x|];
      assert b[pos..pos + |x + y|][|x|..] == b[pos + |x|..pos + |x| + |y|];
    }
    if At(b, pos, x) && At(b, pos + |x|, y) {
      assert b[pos..pos + |x + y|] == b[pos..pos + |x|] + b[pos + |x|..pos + |x| + |y|];
    }
  }

  // -- Reading ------------------------------------------------------------------------------------

  method GetWord(msg: seq<byte>, pos: nat) returns (w: nat)
    requires pos + 4 <= |msg|
    ensures w == Word(msg[pos..pos + 4])
  {
    w := (((msg[pos] as int) * 256 + msg[pos + 1]) * 256 + msg[pos + 2]) * 256 + msg[pos + 3];
  }

  method GetInt(msg: seq<byte>, pos: nat, ghost v: int) returns (r: int)
    requires Int32(v) && At(msg, pos, IntBytes(v))
    ensures r == v
  {
    IntRoundTrip(v);
    var w := GetWord(msg, pos);
    r := ToInt(w);
  }

  // strcpy out of the message: reads up to the first NUL.
  method GetText(msg: seq<byte>, pos: nat, ghost t: Text) returns (r: Text)
    requires 0 !in t && At(msg, pos, TextBytes(t))
    ensures r == t
  {
    ghost var part := TextBytes(t);
    assert forall k :: 0 <= k < |part| ==> msg[pos + k] == part[k] by {
      assert forall k :: 0 <= k < |part| ==> msg[pos..pos + |part|][k] == part[k];
    }
    var i := pos;
    while msg[i] != 0
      invariant pos <= i <= pos + |t|
      decreases pos + |t| - i
    {
      assert msg[pos + (i - pos)] == part[i - pos];
      i := i + 1;
    }
    assert msg[pos + (i - pos)] == part[i - pos];
    r := msg[pos..i];
    assert forall k :: 0 <= k < |t| ==> msg[pos + k] == part[k] == t[k];
  }

  lemma ArticleParts(b: seq<byte>, pos: nat, a: Article)
    requires At(b, pos, ArticleBytes(a))
    ensures At(b, pos, IntBytes(a.id)) && At(b, pos + 4, IntBytes(a.parentId)) && At(b, pos + 8, IntBytes(a.depth))
    ensures At(b, pos + 12, TextBytes(a.author))
    ensures At(b, pos + 13 + |a.author|, TextBytes(a.title))
    ensures At(b, pos + 14 + |a.author| + |a.title|, TextBytes(a.contents))
  {
    var x := IntBytes(a.id) + IntBytes(a.parentId);
    AtSplit(b, pos, x + IntBytes(a.depth) + TextBytes(a.author) + TextBytes(a.title), TextBytes(a.contents));
    AtSplit(b, pos, x + IntBytes(a.depth) + TextBytes(a.author), TextBytes(a.title));
    AtSplit(b, pos, x + IntBytes(a.depth), TextBytes(a.author));
    AtSplit(b, pos, x, IntBytes(a.depth));
    AtSplit(b, pos, IntBytes(a.id), IntBytes(a.parentId));
  }

  method GetArticle(msg: seq<byte>, pos: nat, ghost a: Article) returns (r: Article, end: nat)
    requires FitsArticle(a) && At(msg, pos, ArticleBytes(a))
    ensures r == a && end == pos + |ArticleBytes(a)|
  {
    ArticleParts(msg, pos, a);
    var id := GetInt(msg, pos, a.id);
    var parentId := GetInt(msg, pos + 4, a.parentId);
    var depth := GetInt(msg, pos + 8, a.depth);
    end := pos + 12;
    var author := GetText(msg, end, a.author);
    end := end + |author| + 1;
    var title := GetText(msg, end, a.title);
    end := end + |title| + 1;
    var contents := GetText(msg, end, a.contents);
    end := end + |contents| + 1;
    r := Article(id, parentId, depth, author, title, contents);
  }

  lemma {:induction false} NodesAt(b: seq<byte>, pos: nat, ns: seq<Node>, count: nat, i: nat)
    requires i < count <= |ns| && At(b, pos, NodesBytes(ns, count))
    ensures At(b, pos + |NodesBytes(ns, i)|, NodeBytes(ns[i]))
  {
    AtSplit(b, pos, NodesBytes(ns, count - 1), NodeBytes(ns[count - 1]));
    if i < count - 1 {
      NodesAt(b, pos, ns, count - 1, i);
    }
  }

  // A message of this kind can be read: its header is in order.
  predicate HeaderOk(msg: seq<byte>, kind: nat)
    requires |msg| >= HEADER_SIZE
  {
    Word(msg[0..4]) == MAGIC && Word(msg[4..8]) == kind
  }

  /** What a header says. It is in order exactly if the magic number is right. */
  method ReadHeader(msg: seq<byte>) returns (ok: bool, kind: nat, id: int, size: nat)
    requires |msg| >= HEADER_SIZE
    ensures ok <==> msg[..4] == [0x12, 0xAB, 0x34, 0xCD]
    ensures kind == Word(msg[4..8]) && id == ToInt(Word(msg[8..12])) && size == Word(msg[12..16])
  {
    var magic := GetWord(msg, 0);
    kind := GetWord(msg, 4);
    var word := GetWord(msg, 8);
    id := ToInt(word);
    size := GetWord(msg, 12);
    ok := magic == MAGIC;
    MagicBytes(msg[0..4]);
    assert msg[..4] == msg[0..4];
  }

  lemma MagicBytes(b: seq<byte>)
    requires |b| == 4
    ensures Word(b) == MAGIC <==> b == [0x12, 0xAB, 0x34, 0xCD]
  {
  }

  method ParseHeader(msg: seq<byte>, kind: nat) returns (ok: bool)
    requires |msg| >= HEADER_SIZE
    ensures ok <==> HeaderOk(msg, kind)
  {
    var good, found, id, size := ReadHeader(msg);
    ok := good && found == kind;
    MagicBytes(msg[0..4]);
    assert msg[..4] == msg[0..4];
  }

  // The message carries a database: what follows the header is the byte form of one.
  ghost predicate Carries(msg: seq<byte>, db: Db) {
    Fits(db) && At(msg, HEADER_SIZE, DbBytes(db))
  }

  /** Parses a database push (or pull answer) into `out`. A bad magic number or kind is refused and
      leaves `out` alone; slots past the last one received keep what they held. */
  method ParseDb(msg: seq<byte>, kind: nat, out: ArticleDatabase) returns (ok: bool, bytesRead: nat)
    requires |msg| >= HEADER_SIZE && out.nodes.Length == MAX_ARTICLES
    requires HeaderOk(msg, kind) ==> exists db :: Carries(msg, db)
    modifies out`version, out`articleCount, out.nodes
    ensures ok <==> HeaderOk(msg, kind)
    ensures ok ==> out.Valid() && Carries(msg, out.Live()) && bytesRead == |DbBytes(out.Live())|
    ensures ok ==> forall k :: out.articleCount <= k < MAX_ARTICLES ==> out.nodes[k] == old(out.nodes[k])
    ensures !ok ==> out.version == old(out.version) && out.articleCount == old(out.articleCount)
                    && out.nodes[..] == old(out.nodes[..])
  {
    bytesRead := 0;
    ok := ParseHeader(msg, kind);
    if !ok {
      return;
    }
    ghost var db :| Carries(msg, db);
    DbParts(msg, db);
    out.version := GetInt(msg, HEADER_SIZE, db.version);
    out.articleCount := GetInt(msg, HEADER_SIZE + 4, |db.nodes|);
    var end := GetNodes(msg, HEADER_SIZE + 8, out.articleCount, out.nodes, db.nodes);
    bytesRead := end - HEADER_SIZE;
    assert out.Live() == db;
  }

  method GetNodes(msg: seq<byte>, pos: nat, count: nat, out: array<Node>, ghost ns: seq<Node>) returns (end: nat)
    requires count == |ns| <= out.Length
    requires NodesIn(msg, pos, ns)
    modifies out
    ensures end == pos + |NodesBytes(ns, count)|
    ensures out[..count] == ns
    ensures forall k :: count <= k < out.Length ==> out[k] == old(out[k])
  {
    end := pos;
    var i := 0;
    while i < count
      invariant i <= count && end == pos + |NodesBytes(ns, i)|
      invariant forall k :: 0 <= k < i ==> out[k] == ns[k]
      invariant forall k :: i <= k < out.Length ==> out[k] == old(out[k])
    {
      end := GetNodeInto(msg, pos, end, ns, i, out);
      i := i + 1;
    }
  }

  method GetNodeInto(msg: seq<byte>, ghost start: nat, pos: nat, ghost ns: seq<Node>, i: nat, out: array<Node>)
    returns (end: nat)
    requires NodesIn(msg, start, ns) && i < |ns| && i < out.Length && pos == start + |NodesBytes(ns, i)|
    modifies out
    ensures end == start + |NodesBytes(ns, i + 1)|
    ensures out[i] == ns[i] && forall k :: 0 <= k < out.Length && k != i ==> out[k] == old(out[k])
  {
    out[i], end := GetNodeAt(msg, start, pos, ns, i);
  }

  method GetNodeAt(msg: seq<byte>, ghost start: nat, pos: nat, ghost ns: seq<Node>, ghost i: nat)
    returns (r: Node, end: nat)
    requires NodesIn(msg, start, ns) && i < |ns| && pos == start + |NodesBytes(ns, i)|
    ensures r == ns[i] && end == start + |NodesBytes(ns, i + 1)|
  {
    NodesAt(msg, start, ns, |ns|, i);
    r, end := GetNode(msg, pos, ns[i]);
  }

  lemma DbParts(b: seq<byte>, db: Db)
    requires Carries(b, db)
    ensures At(b, HEADER_SIZE, IntBytes(db.version))
    ensures At(b, HEADER_SIZE + 4, IntBytes(|db.nodes|))
    ensures At(b, HEADER_SIZE + 8, NodesBytes(db.nodes, |db.nodes|))
  {
    AtSplit(b, HEADER_SIZE, IntBytes(db.version) + IntBytes(|db.nodes|), NodesBytes(db.nodes, |db.nodes|));
    AtSplit(b, HEADER_SIZE, IntBytes(db.version), IntBytes(|db.nodes|));
  }

  method GetNode(msg: seq<byte>, pos: nat, ghost n: Node) returns (r: Node, end: nat)
    requires FitsNode(n) && At(msg, pos, NodeBytes(n))
    ensures r == n && end == pos + |NodeBytes(n)|
  {
    AtSplit(msg, pos, IntBytes(n.next), ArticleBytes(n.article));
    var next := GetInt(msg, pos, n.next);
    var article, last := GetArticle(msg, pos + 4, n.article);
    r, end := Node(next, article), last;
  }

  // -- A message carries one database -------------------------------------------------------------

  lemma SameInt(b: seq<byte>, pos: nat, v: int, w: int)
    requires Int32(v) && Int32(w) && At(b, pos, IntBytes(v)) && At(b, pos, IntBytes(w))
    ensures v == w
  {
    IntRoundTrip(v);
    IntRoundTrip(w);
  }

  lemma NotShorter(b: seq<byte>, pos: nat, s: Text, t: Text)
    requires 0 !in t && At(b, pos, TextBytes(s)) && At(b, pos, TextBytes(t))
    ensures |t| <= |s|
  {
    var k := if |s| < |t| then |s| else |t|;
    assert TextBytes(s)[k] == b[pos..pos + |s| + 1][k] == b[pos + k];
    assert TextBytes(t)[k] == b[pos..pos + |t| + 1][k] == b[pos + k];
  }

  lemma SameText(b: seq<byte>, pos: nat, s: Text, t: Text)
    requires 0 !in s && 0 !in t && At(b, pos, TextBytes(s)) && At(b, pos, TextBytes(t))
    ensures s == t
  {
    NotShorter(b, pos, s, t);
    NotShorter(b, pos, t, s);
    assert s == TextBytes(s)[..|s|] && t == TextBytes(t)[..|t|];
  }

  lemma SameArticle(b: seq<byte>, pos: nat, x: Article, y: Article)
    requires FitsArticle(x) && FitsArticle(y) && At(b, pos, ArticleBytes(x)) && At(b, pos, ArticleBytes(y))
    ensures x == y
  {
    ArticleParts(b, pos, x);
    ArticleParts(b, pos, y);
    SameInt(b, pos, x.id, y.id);
    SameInt(b, pos + 4, x.parentId, y.parentId);
    SameInt(b, pos + 8, x.depth, y.depth);
    SameText(b, pos + 12, x.author, y.author);
    SameText(b, pos + 13 + |x.author|, x.title, y.title);
    SameText(b, pos + 14 + |x.author| + |x.title|, x.contents, y.contents);
  }

  lemma SameNode(b: seq<byte>, pos: nat, x: Node, y: Node)
    requires FitsNode(x) && FitsNode(y) && At(b, pos, NodeBytes(x)) && At(b, pos, NodeBytes(y))
    ensures x == y
  {
    AtSplit(b, pos, IntBytes(x.next), ArticleBytes(x.article));
    AtSplit(b, pos, IntBytes(y.next), ArticleBytes(y.article));
    SameInt(b, pos, x.next, y.next);
    SameArticle(b, pos + 4, x.article, y.article);
  }

  // `b` holds `ns` from `pos` on.
  ghost predicate NodesIn(b: seq<byte>, pos: nat, ns: seq<Node>) {
    (forall k :: 0 <= k < |ns| ==> FitsNode(ns[k])) && At(b, pos, NodesBytes(ns, |ns|))
  }

  lemma SameNodeAt(b: seq<byte>, pos: nat, xs: seq<Node>, ys: seq<Node>, i: nat)
    requires NodesIn(b, pos, xs) && NodesIn(b, pos, ys)
    requires i < |xs| == |ys| && |NodesBytes(xs, i)| == |NodesBytes(ys, i)|
    ensures xs[i] == ys[i]
  {
    NodesAt(b, pos, xs, |xs|, i);
    NodesAt(b, pos, ys, |ys|, i);
    SameNode(b, pos + |NodesBytes(xs, i)|, xs[i], ys[i]);
  }

  lemma {:induction false} SameBytes(xs: seq<Node>, ys: seq<Node>, i: nat)
    requires i <= |xs| && i <= |ys| && forall k :: 0 <= k < i ==> xs[k] == ys[k]
    ensures NodesBytes(xs, i) == NodesBytes(ys, i)
  {
    if i > 0 {
      SameBytes(xs, ys, i - 1);
    }
  }

  lemma {:induction false} SameNodes(b: seq<byte>, pos: nat, xs: seq<Node>, ys: seq<Node>, i: nat)
    requires NodesIn(b, pos, xs) && NodesIn(b, pos, ys) && i <= |xs| == |ys|
    ensures forall k :: 0 <= k < i ==> xs[k] == ys[k]
  {
    if i > 0 {
      SameNodes(b, pos, xs, ys, i - 1);
      SameBytes(xs, ys, i - 1);
      SameNodeAt(b, pos, xs, ys, i - 1);
    }
  }

  /** Unique readability: a message carries at most one database, so what a parse returns is what
      was built into the message. */
  lemma CarriesOne(msg: seq<byte>, x: Db, y: Db)
    requires Carries(msg, x) && Carries(msg, y)
    ensures x == y
  {
    DbParts(msg, x);
    DbParts(msg, y);
    SameInt(msg, HEADER_SIZE, x.version, y.version);
    SameInt(msg, HEADER_SIZE + 4, |x.nodes|, |y.nodes|);
    SameNodes(msg, HEADER_SIZE + 8, x.nodes, y.nodes, |x.nodes|);
  }

  // -- Writing ------------------------------------------------------------------------------------

  // `now` is `was` with `part` written at `pos`.
  ghost predicate Wrote(was: seq<byte>, now: seq<byte>, pos: nat, part: seq<byte>) {
    && |now| == |was| && pos + |part| <= |was|
    && At(now, pos, part)
    && (forall k :: 0 <= k < |was| && !(pos <= k < pos + |part|) ==> now[k] == was[k])
  }

  lemma WroteTwo(was: seq<byte>, mid: seq<byte>, now: seq<byte>, pos: nat, x: seq<byte>, y: seq<byte>)
    requires Wrote(was, mid, pos, x) && Wrote(mid, now, pos + |x|, y)
    ensures Wrote(was, now, pos, x + y)
  {
    assert now[pos..pos + |x|] == mid[pos..pos + |x|];
    AtSplit(now, pos, x, y);
  }

  method PutWord(buf: array<byte>, pos: nat, w: nat)
    requires w < TWO32 && pos + 4 <= buf.Length
    modifies buf
    ensures Wrote(old(buf[..]), buf[..], pos, Bytes(w))
  {
    buf[pos] := w / 256 / 256 / 256;
    buf[pos + 1] := w / 256 / 256 % 256;
    buf[pos + 2] := w / 256 % 256;
    buf[pos + 3] := w % 256;
    assert buf[..][pos..pos + 4] == Bytes(w);
  }

  // strcpy into the message, terminating NUL included.
  method PutText(buf: array<byte>, pos: nat, t: Text)
    requires pos + |t| + 1 <= buf.Length
    modifies buf
    ensures Wrote(old(buf[..]), buf[..], pos, TextBytes(t))
  {
    for i := 0 to |t|
      invariant forall k :: 0 <= k < i ==> buf[pos + k] == t[k]
      invariant forall k :: 0 <= k < buf.Length && !(pos <= k < pos + i) ==> buf[k] == old(buf[k])
    {
      buf[pos + i] := t[i];
    }
    buf[pos + |t|] := 0;
    assert buf[..][pos..pos + |t| + 1] == TextBytes(t);
  }

  method PutArticle(buf: array<byte>, pos: nat, a: Article) returns (end: nat)
    requires pos + |ArticleBytes(a)| <= buf.Length
    modifies buf
    ensures end == pos + |ArticleBytes(a)|
    ensures Wrote(old(buf[..]), buf[..], pos, ArticleBytes(a))
  {
    ghost var b0 := buf[..];
    PutWord(buf, pos, ToWord(a.id));
    ghost var b1 := buf[..];
    PutWord(buf, pos + 4, ToWord(a.parentId));
    ghost var b2 := buf[..];
    PutWord(buf, pos + 8, ToWord(a.depth));
    ghost var b3 := buf[..];
    end := pos + 12;
    PutText(buf, end, a.author);
    ghost var b4 := buf[..];
    end := end + |a.author| + 1;
    PutText(buf, end, a.title);
    ghost var b5 := buf[..];
    end := end + |a.title| + 1;
    PutText(buf, end, a.contents);
    end := end + |a.contents| + 1;
    ghost var x := IntBytes(a.id) + IntBytes(a.parentId);
    WroteTwo(b0, b1, b2, pos, IntBytes(a.id), IntBytes(a.parentId));
    WroteTwo(b0, b2, b3, pos, x, IntBytes(a.depth));
    WroteTwo(b0, b3, b4, pos, x + IntBytes(a.depth), TextBytes(a.author));
    WroteTwo(b0, b4, b5, pos, x + IntBytes(a.depth) + TextBytes(a.author), TextBytes(a.title));
    WroteTwo(b0, b5, buf[..], pos, x + IntBytes(a.depth) + TextBytes(a.author) + TextBytes(a.title),
             TextBytes(a.contents));
  }

  method PutNode(buf: array<byte>, pos: nat, n: Node) returns (end: nat)
    requires pos + |NodeBytes(n)| <= buf.Length
    modifies buf
    ensures end == pos + |NodeBytes(n)|
    ensures Wrote(old(buf[..]), buf[..], pos, NodeBytes(n))
  {
    ghost var b0 := buf[..];
    PutWord(buf, pos, ToWord(n.next));
    ghost var b1 := buf[..];
    end := PutArticle(buf, pos + 4, n.article);
    WroteTwo(b0, b1, buf[..], pos, IntBytes(n.next), ArticleBytes(n.article));
  }

  method BuildHeader(buf: array<byte>, kind: nat, id: int, size: nat)
    requires kind < TWO32 && size < TWO32 && HEADER_SIZE <= buf.Length
    modifies buf
    ensures Wrote(old(buf[..]), buf[..], 0, HeaderBytes(kind, id, size))
  {
    ghost var b0 := buf[..];
    PutWord(buf, 0, MAGIC);
    ghost var b1 := buf[..];
    PutWord(buf, 4, kind);
    ghost var b2 := buf[..];
    PutWord(buf, 8, ToWord(id));
    ghost var b3 := buf[..];
    PutWord(buf, 12, size);
    WroteTwo(b0, b1, b2, 0, Bytes(MAGIC), Bytes(kind));
    WroteTwo(b0, b2, b3, 0, Bytes(MAGIC) + Bytes(kind), IntBytes(id));
    WroteTwo(b0, b3, buf[..], 0, Bytes(MAGIC) + Bytes(kind) + IntBytes(id), Bytes(size));
  }

  lemma {:induction false} NodesBytesPrefix(ns: seq<Node>, i: nat, count: nat)
    requires i <= count <= |ns|
    ensures |NodesBytes(ns, i)| <= |NodesBytes(ns, count)|
  {
    if i < count {
      NodesBytesPrefix(ns, i, count - 1);
    }
  }

  /** Builds a database push (or pull answer): header, version, count and every live node. */
  method BuildDb(buf: array<byte>, kind: nat, id: int, db: ArticleDatabase) returns (bytesWritten: nat)
    requires kind < TWO32 && db.Valid() && Fits(db.Live())
    requires HEADER_SIZE + |DbBytes(db.Live())| <= buf.Length
    modifies buf
    ensures bytesWritten == |DbBytes(db.Live())|
    ensures bytesWritten < TWO32
    ensures Wrote(old(buf[..]), buf[..], 0, HeaderBytes(kind, id, bytesWritten) + DbBytes(db.Live()))
  {
    ghost var live := db.Live();
    SizeBound(live);
    ghost var b0 := buf[..];
    PutWord(buf, HEADER_SIZE, ToWord(db.version));
    ghost var b1 := buf[..];
    PutWord(buf, HEADER_SIZE + 4, ToWord(db.articleCount));
    WroteTwo(b0, b1, buf[..], HEADER_SIZE, IntBytes(live.version), IntBytes(|live.nodes|));
    ghost var head := IntBytes(live.version) + IntBytes(|live.nodes|);
    ghost var b2 := buf[..];
    var end := PutNodes(buf, HEADER_SIZE + 8, db.articleCount, db.nodes, live.nodes);
    ghost var b3 := buf[..];
    WroteTwo(b0, b2, b3, HEADER_SIZE, head, NodesBytes(live.nodes, |live.nodes|));
    bytesWritten := end - HEADER_SIZE;
    BuildHeader(buf, kind, id, bytesWritten);
    HeaderThenBody(b0, b3, buf[..], HeaderBytes(kind, id, bytesWritten), DbBytes(live));
  }

  method PutNodes(buf: array<byte>, pos: nat, count: nat, nodes: array<Node>, ghost ns: seq<Node>) returns (end: nat)
    requires count <= nodes.Length && ns == nodes[..count]
    requires pos + |NodesBytes(ns, count)| <= buf.Length
    modifies buf
    ensures end == pos + |NodesBytes(ns, count)|
    ensures Wrote(old(buf[..]), buf[..], pos, NodesBytes(ns, count))
  {
    ghost var b0 := buf[..];
    end := pos;
    for i := 0 to count
      invariant end == pos + |NodesBytes(ns, i)|
      invariant Wrote(b0, buf[..], pos, NodesBytes(ns, i))
    {
      ghost var b := buf[..];
      NodesBytesPrefix(ns, i + 1, count);
      assert nodes[i] == ns[i];
      end := PutNode(buf, end, nodes[i]);
      WroteTwo(b0, b, buf[..], pos, NodesBytes(ns, i), NodeBytes(ns[i]));
    }
  }

  lemma HeaderThenBody(was: seq<byte>, mid: seq<byte>, now: seq<byte>, header: seq<byte>, body: seq<byte>)
    requires Wrote(was, mid, |header|, body) && Wrote(mid, now, 0, header)
    ensures Wrote(was, now, 0, header + body)
  {
    assert now[|header|..|header| + |body|] == mid[|header|..|header| + |body|];
    AtSplit(now, 0, header, body);
  }

  lemma HeaderHas(msg: seq<byte>, kind: nat, id: int, size: nat)
    requires kind < TWO32 && size < TWO32 && At(msg, 0, HeaderBytes(kind, id, size))
    ensures |msg| >= HEADER_SIZE && Word(msg[0..4]) == MAGIC && Word(msg[4..8]) == kind
    ensures Int32(id) ==> ToInt(Word(msg[8..12])) == id
    ensures Word(msg[12..16]) == size
  {
    AtSplit(msg, 0, Bytes(MAGIC) + Bytes(kind) + IntBytes(id), Bytes(size));
    AtSplit(msg, 0, Bytes(MAGIC) + Bytes(kind), IntBytes(id));
    AtSplit(msg, 0, Bytes(MAGIC), Bytes(kind));
    WordRoundTrip(MAGIC);
    WordRoundTrip(kind);
    WordRoundTrip(size);
    WordRoundTrip(ToWord(id));
  }

  lemma BuiltIsReadable(msg: seq<byte>, kind: nat, id: int, db: Db)
    requires kind < TWO32 && Fits(db) && |DbBytes(db)| < TWO32
    requires At(msg, 0, HeaderBytes(kind, id, |DbBytes(db)|) + DbBytes(db))
    ensures |msg| >= HEADER_SIZE && HeaderOk(msg, kind) && Carries(msg, db)
  {
    var size := |DbBytes(db)|;
    AtSplit(msg, 0, HeaderBytes(kind, id, size), DbBytes(db));
    HeaderHas(msg, kind, id, size);
  }

  // A message from one server's snapshot to the other's parsed copy.
  method Transfer(buf: array<byte>, kind: nat, id: int, snapshot: ArticleDatabase, received: ArticleDatabase)
    requires kind < TWO32 && snapshot.Valid() && Fits(snapshot.Live()) && buf.Length >= MAX_MSG_SIZE
    requires received != snapshot && received.nodes != snapshot.nodes && received.nodes.Length == MAX_ARTICLES
    modifies buf, received`version, received`articleCount, received.nodes
    ensures received.Valid() && snapshot.Valid()
    ensures received.Live() == snapshot.Live() == old(snapshot.Live())
  {
    ghost var live := snapshot.Live();
    SizeBound(live);
    var written := BuildDb(buf, kind, id, snapshot);
    var msg := buf[..];
    BuiltIsReadable(msg, kind, id, live);
    var ok, read := ParseDb(msg, kind, received);
    CarriesOne(msg, received.Live(), live);
    // the read cursor ends where the write cursor did
    assert ok && read == written;
  }

  /** Round trip of a push: the snapshot is built into a message, and the replica that parses and
      restores it ends with the snapshot's version and live articles, whatever it held before. */
  method Push(buf: array<byte>, id: int, snapshot: ArticleDatabase, received: ArticleDatabase, replica: ArticleDatabase)
    requires snapshot.Valid() && Fits(snapshot.Live()) && buf.Length >= MAX_MSG_SIZE
    requires received != snapshot && received.nodes != snapshot.nodes && received.nodes.Length == MAX_ARTICLES
    requires replica != snapshot && replica.nodes != snapshot.nodes && replica.nodes.Length == MAX_ARTICLES
    requires replica != received && replica.nodes != received.nodes
    modifies buf, received`version, received`articleCount, received.nodes
    modifies replica`version, replica`articleCount, replica.nodes
    ensures replica.Valid() && snapshot.Valid()
    ensures replica.Live() == snapshot.Live() == old(snapshot.Live())
  {
    Transfer(buf, DB_PUSH_REQUEST, id, snapshot, received);
    replica.Restore(received);
  }

  /** Round trip of a pull: the asked server snapshots its database and builds the answer, and what the
      asking server parses has the version and live articles of that database. */
  method Pull(buf: array<byte>, id: int, remote: ArticleDatabase, snapshot: ArticleDatabase, received: ArticleDatabase)
    requires remote.Valid() && Fits(remote.Live()) && buf.Length >= MAX_MSG_SIZE
    requires snapshot != remote && snapshot.nodes != remote.nodes && snapshot.nodes.Length == MAX_ARTICLES
    requires received != remote && received.nodes != remote.nodes && received.nodes.Length == MAX_ARTICLES
    requires received != snapshot && received.nodes != snapshot.nodes
    modifies buf, snapshot`version, snapshot`articleCount, snapshot.nodes
    modifies received`version, received`articleCount, received.nodes
    ensures received.Valid() && remote.Valid()
    ensures received.Live() == remote.Live() == old(remote.Live())
  {
    remote.Backup(snapshot);
    Transfer(buf, DB_PULL_RESPONSE, id, snapshot, received);
  }
}
