/** The answer to a read: the articles in thread order, from the server's array to the client's. */
module ReadCodec {
  import opened CTypes
  import opened Database
  import opened MessageCodec

  const READ_RESPONSE: nat := 0x3001

  // The buffer a client receives any answer into.
  const CLIENT_BUFFER: nat := 4096

  predicate FitsArticles(articles: seq<Article>) {
    |articles| <= MAX_ARTICLES && forall i :: 0 <= i < |articles| ==> FitsArticle(articles[i])
  }

  // The first `count` articles.
  function ArticlesBytes(articles: seq<Article>, count: nat): seq<byte>
    requires count <= |articles|
  {
    if count == 0 then [] else ArticlesBytes(articles, count - 1) + ArticleBytes(articles[count - 1])
  }

  function ReadBytes(articles: seq<Article>): seq<byte> {
    IntBytes(|articles|) + ArticlesBytes(articles, |articles|)
  }

  // The whole answer that lists these articles.
  function ReadSize(articles: seq<Article>): nat { HEADER_SIZE + |ReadBytes(articles)| }

  ghost predicate CarriesArticles(msg: seq<byte>, articles: seq<Article>) {
    FitsArticles(articles) && At(msg, HEADER_SIZE, ReadBytes(articles))
  }

  lemma {:induction false} ArticlesSize(articles: seq<Article>, count: nat)
    requires FitsArticles(articles) && count <= |articles|
    ensures |ArticlesBytes(articles, count)| <= count * (NODE_SIZE - 4)
  {
    if count > 0 {
      ArticlesSize(articles, count - 1);
    }
  }

  /** The answer to a read always fits the buffer the server builds it in. */
  lemma ReadFits(articles: seq<Article>)
    requires FitsArticles(articles)
    ensures ReadSize(articles) < MAX_MSG_SIZE
  {
    ArticlesSize(articles, |articles|);
  }

  lemma {:induction false} ArticlesAt(b: seq<byte>, pos: nat, articles: seq<Article>, count: nat, i: nat)
    requires i < count <= |articles| && At(b, pos, ArticlesBytes(articles, count))
    ensures At(b, pos + |ArticlesBytes(articles, i)|, ArticleBytes(articles[i]))
  {
    AtSplit(b, pos, ArticlesBytes(articles, count - 1), ArticleBytes(articles[count - 1]));
    if i < count - 1 {
      ArticlesAt(b, pos, articles, count - 1, i);
    }
  }

  lemma {:induction false} ArticlesBytesPrefix(articles: seq<Article>, i: nat, count: nat)
    requires i <= count <= |articles|
    ensures |ArticlesBytes(articles, i)| <= |ArticlesBytes(articles, count)|
  {
    if i < count {
      ArticlesBytesPrefix(articles, i, count - 1);
    }
  }

  lemma {:induction false} SamePrefixBytes(x: seq<Article>, y: seq<Article>, i: nat)
    requires i <= |x| && i <= |y| && forall k :: 0 <= k < i ==> x[k] == y[k]
    ensures ArticlesBytes(x, i) == ArticlesBytes(y, i)
  {
    if i > 0 {
      SamePrefixBytes(x, y, i - 1);
    }
  }

  // `b` holds `articles` from `pos` on.
  ghost predicate ArticlesIn(b: seq<byte>, pos: nat, articles: seq<Article>) {
    FitsArticles(articles) && At(b, pos, ArticlesBytes(articles, |articles|))
  }

  lemma ArticleIn(b: seq<byte>, pos: nat, articles: seq<Article>, i: nat)
    requires ArticlesIn(b, pos, articles) && i < |articles|
    ensures FitsArticle(articles[i]) && At(b, pos + |ArticlesBytes(articles, i)|, ArticleBytes(articles[i]))
  {
    ArticlesAt(b, pos, articles, |articles|, i);
  }

  lemma SameArticleAt(b: seq<byte>, pos: nat, x: seq<Article>, y: seq<Article>, i: nat)
    requires ArticlesIn(b, pos, x) && ArticlesIn(b, pos, y) && i < |x| == |y|
    requires |ArticlesBytes(x, i)| == |ArticlesBytes(y, i)|
    ensures x[i] == y[i]
  {
    ArticleIn(b, pos, x, i);
    ArticleIn(b, pos, y, i);
    SameArticle(b, pos + |ArticlesBytes(x, i)|, x[i], y[i]);
  }

  lemma {:induction false} SameArticles(b: seq<byte>, pos: nat, x: seq<Article>, y: seq<Article>, i: nat)
    requires ArticlesIn(b, pos, x) && ArticlesIn(b, pos, y) && i <= |x| == |y|
    ensures forall k :: 0 <= k < i ==> x[k] == y[k]
  {
    if i > 0 {
      SameArticles(b, pos, x, y, i - 1);
      SamePrefixBytes(x, y, i - 1);
      SameArticleAt(b, pos, x, y, i - 1);
    }
  }

  /** A message carries at most one list of articles. */
  lemma CarriesOneList(msg: seq<byte>, x: seq<Article>, y: seq<Article>)
    requires CarriesArticles(msg, x) && CarriesArticles(msg, y)
    ensures x == y
  {
    AtSplit(msg, HEADER_SIZE, IntBytes(|x|), ArticlesBytes(x, |x|));
    AtSplit(msg, HEADER_SIZE, IntBytes(|y|), ArticlesBytes(y, |y|));
    SameInt(msg, HEADER_SIZE, |x|, |y|);
    SameArticles(msg, HEADER_SIZE + 4, x, y, |x|);
  }

  method PutArticles(buf: array<byte>, pos: nat, articles: seq<Article>) returns (end: nat)
    requires pos + |ArticlesBytes(articles, |articles|)| <= buf.Length
    modifies buf
    ensures end == pos + |ArticlesBytes(articles, |articles|)|
    ensures Wrote(old(buf[..]), buf[..], pos, ArticlesBytes(articles, |articles|))
  {
    ghost var b0 := buf[..];
    end := pos;
    for i := 0 to |articles|
      invariant end == pos + |ArticlesBytes(articles, i)|
      invariant Wrote(b0, buf[..], pos, ArticlesBytes(articles, i))
    {
      ghost var b := buf[..];
      ArticlesBytesPrefix(articles, i + 1, |articles|);
      end := PutArticle(buf, end, articles[i]);
      WroteTwo(b0, b, buf[..], pos, ArticlesBytes(articles, i), ArticleBytes(articles[i]));
    }
  }

  method PutRead(buf: array<byte>, articles: seq<Article>) returns (bytesWritten: nat)
    requires |articles| <= MAX_ARTICLES && HEADER_SIZE + |ReadBytes(articles)| <= buf.Length
    modifies buf
    ensures bytesWritten == |ReadBytes(articles)|
    ensures Wrote(old(buf[..]), buf[..], HEADER_SIZE, ReadBytes(articles))
  {
    ghost var b0 := buf[..];
    PutWord(buf, HEADER_SIZE, |articles|);
    ghost var b1 := buf[..];
    var end := PutArticles(buf, HEADER_SIZE + 4, articles);
    WroteTwo(b0, b1, buf[..], HEADER_SIZE, IntBytes(|articles|), ArticlesBytes(articles, |articles|));
    bytesWritten := end - HEADER_SIZE;
  }

  /** Builds the answer: count and articles, behind a header that names the kind and the size. */
  method BuildRead(buf: array<byte>, id: int, articles: seq<Article>) returns (bytesWritten: nat)
    requires FitsArticles(articles) && buf.Length >= MAX_MSG_SIZE
    modifies buf
    ensures bytesWritten == |ReadBytes(articles)| && HEADER_SIZE + bytesWritten <= buf.Length
    ensures bytesWritten < TWO32
    ensures At(buf[..], 0, HeaderBytes(READ_RESPONSE, id, bytesWritten) + ReadBytes(articles))
    ensures IsAnswer(buf[..], articles)
  {
    ReadFits(articles);
    ghost var b0 := buf[..];
    bytesWritten := PutRead(buf, articles);
    ghost var b1 := buf[..];
    BuildHeader(buf, READ_RESPONSE, id, bytesWritten);
    HeaderThenBody(b0, b1, buf[..], HeaderBytes(READ_RESPONSE, id, bytesWritten), ReadBytes(articles));
    BuiltIsAnswer(buf[..], id, articles);
  }

  // The message is an answer with these articles: kind, size word and body are theirs.
  ghost predicate IsAnswer(msg: seq<byte>, articles: seq<Article>) {
    && |msg| >= HEADER_SIZE && HeaderOk(msg, READ_RESPONSE)
    && HEADER_SIZE + Word(msg[12..16]) == ReadSize(articles)
    && CarriesArticles(msg, articles)
  }

  lemma BuiltIsAnswer(msg: seq<byte>, id: int, articles: seq<Article>)
    requires FitsArticles(articles) && |ReadBytes(articles)| < TWO32
    requires At(msg, 0, HeaderBytes(READ_RESPONSE, id, |ReadBytes(articles)|) + ReadBytes(articles))
    ensures IsAnswer(msg, articles)
  {
    AtSplit(msg, 0, HeaderBytes(READ_RESPONSE, id, |ReadBytes(articles)|), ReadBytes(articles));
    HeaderHas(msg, READ_RESPONSE, id, |ReadBytes(articles)|);
  }

  method GetArticles(msg: seq<byte>, pos: nat, count: nat, out: array<Article>, ghost articles: seq<Article>)
    returns (end: nat)
    requires count == |articles| <= out.Length && ArticlesIn(msg, pos, articles)
    modifies out
    ensures end == pos + |ArticlesBytes(articles, count)|
    ensures out[..count] == articles
    ensures forall k :: count <= k < out.Length ==> out[k] == old(out[k])
  {
    end := pos;
    var i := 0;
    while i < count
      invariant i <= count && end == pos + |ArticlesBytes(articles, i)|
      invariant forall k :: 0 <= k < i ==> out[k] == articles[k]
      invariant forall k :: i <= k < out.Length ==> out[k] == old(out[k])
    {
      end := GetArticleInto(msg, pos, end, articles, i, out);
      i := i + 1;
    }
  }

  method GetArticleInto(msg: seq<byte>, ghost start: nat, pos: nat, ghost articles: seq<Article>, i: nat,
                        out: array<Article>) returns (end: nat)
    requires ArticlesIn(msg, start, articles) && i < |articles| && i < out.Length
    requires pos == start + |ArticlesBytes(articles, i)|
    modifies out
    ensures end == start + |ArticlesBytes(articles, i + 1)|
    ensures out[i] == articles[i] && forall k :: 0 <= k < out.Length && k != i ==> out[k] == old(out[k])
  {
    out[i], end := GetArticleAt(msg, start, pos, articles, i);
  }

  method GetArticleAt(msg: seq<byte>, ghost start: nat, pos: nat, ghost articles: seq<Article>, ghost i: nat)
    returns (r: Article, end: nat)
    requires ArticlesIn(msg, start, articles) && i < |articles| && pos == start + |ArticlesBytes(articles, i)|
    ensures r == articles[i] && end == start + |ArticlesBytes(articles, i + 1)|
  {
    ArticleIn(msg, start, articles, i);
    r, end := GetArticle(msg, pos, articles[i]);
  }

  method ParseRead(msg: seq<byte>, out: array<Article>) returns (ok: bool, count: nat, bytesRead: nat)
    requires |msg| >= HEADER_SIZE && out.Length >= MAX_ARTICLES
    requires HeaderOk(msg, READ_RESPONSE) ==> exists articles :: CarriesArticles(msg, articles)
    modifies out
    ensures ok <==> HeaderOk(msg, READ_RESPONSE)
    ensures ok ==> count <= out.Length && CarriesArticles(msg, out[..count]) && bytesRead == |ReadBytes(out[..count])|
    ensures ok ==> forall k :: count <= k < out.Length ==> out[k] == old(out[k])
    ensures !ok ==> out[..] == old(out[..])
  {
    count, bytesRead := 0, 0;
    ok := ParseHeader(msg, READ_RESPONSE);
    if !ok {
      return;
    }
    ghost var articles :| CarriesArticles(msg, articles);
    AtSplit(msg, HEADER_SIZE, IntBytes(|articles|), ArticlesBytes(articles, |articles|));
    count := GetInt(msg, HEADER_SIZE, |articles|);
    var end := GetArticles(msg, HEADER_SIZE + 4, count, out, articles);
    bytesRead := end - HEADER_SIZE;
  }

  lemma ListedFits(db: Db)
    requires Fits(db) && WellLinked(db.nodes)
    ensures FitsArticles(Listed(db.nodes))
  {
    var listed := Listed(db.nodes);
    forall k | 0 <= k < |listed| ensures FitsArticle(listed[k]) {
      assert FitsNode(db.nodes[Order(db.nodes)[k]]);
    }
  }

  lemma AtPrefix(was: seq<byte>, now: seq<byte>, pos: nat, part: seq<byte>, size: nat)
    requires At(was, pos, part) && pos + |part| <= size <= |was| && size <= |now| && now[..size] == was[..size]
    ensures At(now, pos, part)
  {
    assert now[pos..pos + |part|] == now[..size][pos..pos + |part|] == was[pos..pos + |part|];
  }

  // The header comes first, and then as many bytes as its size word says, whatever the length of the
  // buffer. `fits` says whether they stay inside; what they overwrite when they do not is left open.
  method Receive(msg: seq<byte>, buf: array<byte>) returns (fits: bool)
    requires HEADER_SIZE <= |msg| && HEADER_SIZE <= buf.Length && HEADER_SIZE + Word(msg[12..16]) <= |msg|
    modifies buf
    ensures fits <==> HEADER_SIZE + Word(msg[12..16]) <= buf.Length
    ensures fits ==> buf[..HEADER_SIZE + Word(msg[12..16])] == msg[..HEADER_SIZE + Word(msg[12..16])]
  {
    CopyIn(msg, HEADER_SIZE, buf);
    var header := buf[..HEADER_SIZE];
    assert header[12..16] == msg[12..16];
    var size := GetWord(header, 12);
    fits := HEADER_SIZE + size <= buf.Length;
    CopyIn(msg, if fits then HEADER_SIZE + size else buf.Length, buf);
  }

  method CopyIn(msg: seq<byte>, size: nat, buf: array<byte>)
    requires size <= |msg| && size <= buf.Length
    modifies buf
    ensures buf[..size] == msg[..size]
  {
    for i := 0 to size
      invariant buf[..i] == msg[..i]
    {
      ghost var done := buf[..i];
      buf[i] := msg[i];
      assert buf[..i + 1] == done + [msg[i]];
    }
  }

  lemma ReceivedIsAnswer(msg: seq<byte>, now: seq<byte>, articles: seq<Article>)
    requires IsAnswer(msg, articles) && ReadSize(articles) <= |msg| && ReadSize(articles) <= |now|
    requires now[..ReadSize(articles)] == msg[..ReadSize(articles)]
    ensures IsAnswer(now, articles)
  {
    var size := ReadSize(articles);
    AtPrefix(msg, now, HEADER_SIZE, ReadBytes(articles), size);
    assert now[0..4] == now[..size][0..4] == msg[0..4];
    assert now[4..8] == now[..size][4..8] == msg[4..8];
    assert now[12..16] == now[..size][12..16] == msg[12..16];
  }

  /** From the server's database to the client's array. The answer stays inside the client's buffer
      exactly if it is at most 4096 bytes long, and then the client ends up with every live article as
      a read lists them. */
  method ReadRemotely(db: ArticleDatabase, served: array<Article>, response: array<byte>, id: int,
                      received: array<byte>, out: array<Article>) returns (fits: bool, count: nat)
    requires db.Valid() && Fits(db.Live()) && WellLinked(db.Live().nodes)
    requires served.Length >= MAX_ARTICLES && out.Length >= MAX_ARTICLES
    requires response.Length >= MAX_MSG_SIZE && received.Length == CLIENT_BUFFER
    modifies served, response, received, out
    ensures fits <==> ReadSize(Listed(db.Live().nodes)) <= 4096
    ensures fits ==> count == |db.Live().nodes| && out[..count] == Listed(db.Live().nodes)
  {
    ghost var articles := Listed(db.Live().nodes);
    AnswerRead(db, served, response, id);
    fits, count := ReceiveRead(response[..], received, out, articles);
  }

  // The server's side.
  method AnswerRead(db: ArticleDatabase, served: array<Article>, response: array<byte>, id: int)
    requires db.Valid() && Fits(db.Live()) && WellLinked(db.Live().nodes)
    requires served.Length >= MAX_ARTICLES && response.Length >= MAX_MSG_SIZE
    modifies served, response
    ensures var articles := Listed(db.Live().nodes);
            IsAnswer(response[..], articles) && ReadSize(articles) <= response.Length
  {
    var n := db.Read(served);
    ListedFits(db.Live());
    var written := BuildRead(response, id, served[..n]);
  }

  // The client's side.
  method ReceiveRead(msg: seq<byte>, received: array<byte>, out: array<Article>, ghost articles: seq<Article>)
    returns (fits: bool, count: nat)
    requires IsAnswer(msg, articles) && ReadSize(articles) <= |msg|
    requires received.Length == CLIENT_BUFFER && out.Length >= MAX_ARTICLES
    modifies received, out
    ensures fits <==> ReadSize(articles) <= CLIENT_BUFFER
    ensures fits ==> count == |articles| && out[..count] == articles
  {
    count := 0;
    fits := Receive(msg, received);
    if fits {
      ReceivedIsAnswer(msg, received[..], articles);
      count := ParseReceived(received[..], out, articles);
    }
  }

  method ParseReceived(msg: seq<byte>, out: array<Article>, ghost articles: seq<Article>) returns (count: nat)
    requires IsAnswer(msg, articles) && out.Length >= MAX_ARTICLES
    modifies out
    ensures count == |articles| && out[..count] == articles
  {
    var ok, c, read := ParseRead(msg, out);
    CarriesOneList(msg, out[..c], articles);
    count := c;
  }
}
