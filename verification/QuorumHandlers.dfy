/** The QUORUM request handlers. `from_server` starts out set and is never cleared, so a write takes the
    branch meant for requests from other servers: it is stored here and sent nowhere. */
module QuorumHandlers {
  import opened Board
  import opened CTypes
  import opened Database
  import opened QuorumConfig
  import opened ThreadOrder
  import Handlers

  datatype Server = Server(address: Text, port: int)

  function Acks(fates: seq<Handlers.Fate>): (a: seq<bool>)
    ensures |a| == |fates| && forall i :: 0 <= i < |a| ==> a[i] == fates[i].Acked?
  {
    seq(|fates|, i requires 0 <= i < |fates| => fates[i].Acked?)
  }

  // The servers of a group and their databases.
  class QuorumGroup {
    const servers: seq<Server>
    var dbs: seq<Db>

    ghost predicate Valid()
      reads this
    {
      |dbs| == |servers|
    }

    constructor (servers: seq<Server>)
      ensures Valid() && this.servers == servers && forall i :: 0 <= i < |dbs| ==> dbs[i] == EMPTY
    {
      this.servers := servers;
      dbs := seq(|servers|, _ => EMPTY);
    }

    // Did the request come from a server of the group? The flag is set before the search, so it did,
    // whoever sent it.
    method FromServer(remote: Server) returns (fromServer: bool)
      ensures fromServer
    {
      fromServer := true;
      for i := 0 to |servers|
        invariant fromServer
      {
        if servers[i] == remote {
          fromServer := true;
        }
      }
    }

    // Sends a write to server `i`, which stores it as it would a client's.
    method Send(i: nat, w: Write, fate: Handlers.Fate) returns (ok: bool)
      requires Valid() && i < |dbs|
      modifies this`dbs
      ensures dbs == if fate.Lost? then old(dbs) else old(dbs)[i := Apply(old(dbs[i]), w).0]
      ensures ok == fate.Acked?
    {
      if !fate.Lost? {
        dbs := dbs[i := Apply(dbs[i], w).0];
      }
      ok := fate.Acked?;
    }

    /** Sends a write to the servers in turn until Nw have answered: success exactly if Nw of those
        asked do, and a server stores the write exactly if it is asked and the request gets through. */
    method WriteLoop(w: Write, nw: int, fates: seq<Handlers.Fate>) returns (reached: bool)
      requires Valid() && |fates| == |dbs|
      modifies this`dbs
      ensures Valid()
      ensures reached <==> Answered(Acks(fates), |dbs|) >= nw
      ensures forall i :: 0 <= i < |dbs| ==>
                dbs[i] == if IsAsked(Acks(fates), nw, i) && !fates[i].Lost? then Apply(old(dbs)[i], w).0
                          else old(dbs)[i]
    {
      ghost var was := dbs;
      ghost var a := Acks(fates);
      var success := 0;
      var i := 0;
      while i < |dbs|
        invariant i <= |dbs| && Progress(was, dbs, w, nw, fates, i, success) && !Stopped(a, nw, i)
      {
        ghost var before, count := dbs, success;
        var ok := Send(i, w, fates[i]);
        if ok {
          success := success + 1;
        }
        ProgressNext(was, before, dbs, w, nw, fates, i, count, success);
        i := i + 1;
        if success >= nw {
          break;
        }
      }
      SentAll(was, dbs, w, nw, fates, i);
      reached := success >= nw;
    }

    // The two branches of a write handler at server `me`.
    method StoreOrForward(me: nat, fromServer: bool, w: Write, nw: int, fates: seq<Handlers.Fate>)
      returns (reached: bool)
      requires Valid() && me < |dbs| == |fates|
      modifies this`dbs
      ensures Valid()
      ensures fromServer ==> reached && dbs == old(dbs)[me := Apply(old(dbs[me]), w).0]
      ensures !fromServer ==> (reached <==> Answered(Acks(fates), |dbs|) >= nw)
      ensures !fromServer ==> forall i :: 0 <= i < |dbs| ==>
                dbs[i] == if IsAsked(Acks(fates), nw, i) && !fates[i].Lost? then Apply(old(dbs)[i], w).0
                          else old(dbs)[i]
    {
      if !fromServer {
        reached := WriteLoop(w, nw, fates);
      } else {
        var success := nw;
        dbs := dbs[me := Apply(dbs[me], w).0];
        reached := success >= nw;
      }
    }

    /** A post from a known address is answered with success whoever sent it and whichever servers
        would answer. It is stored at this server, unless the database is full, and no other server's
        database changes. Without an address there is no answer and nothing happens. */
    method QuorumPost(me: nat, remote: Option<Server>, author: Text, title: Text, contents: Text, nw: int,
                      fates: seq<Handlers.Fate>) returns (answer: Option<Handlers.Answer>)
      requires Valid() && me < |dbs| == |fates|
      modifies this`dbs
      ensures Valid()
      ensures remote.None? ==> answer == None && dbs == old(dbs)
      ensures remote.Some? ==> answer == Some(Handlers.Success)
      ensures remote.Some? ==> dbs == old(dbs)[me := Apply(old(dbs[me]), Post(author, title, contents)).0]
      ensures remote.Some? ==> (dbs == old(dbs) <==> |old(dbs[me]).nodes| >= MAX_ARTICLES)
    {
      if remote.None? {
        return None;
      }
      var fromServer := FromServer(remote.value);
      var reached := StoreOrForward(me, fromServer, Post(author, title, contents), nw, fates);
      answer := Some(if reached then Handlers.Success else Handlers.Failure);
      StoredIff(old(dbs), me, Post(author, title, contents));
    }

    /** So is a reply, also to an article that does not exist: the error built for it is overwritten. */
    method QuorumReply(me: nat, remote: Option<Server>, parent: int, author: Text, contents: Text, nw: int,
                       fates: seq<Handlers.Fate>) returns (answer: Option<Handlers.Answer>)
      requires Valid() && me < |dbs| == |fates|
      modifies this`dbs
      ensures Valid()
      ensures remote.None? ==> answer == None && dbs == old(dbs)
      ensures remote.Some? ==> answer == Some(Handlers.Success)
      ensures remote.Some? ==> dbs == old(dbs)[me := Apply(old(dbs[me]), Reply(parent, author, contents)).0]
      ensures remote.Some? ==>
                (dbs == old(dbs) <==>
                 |old(dbs[me]).nodes| >= MAX_ARTICLES || forall n :: n in old(dbs[me]).nodes ==> n.article.id != parent)
    {
      if remote.None? {
        return None;
      }
      var fromServer := FromServer(remote.value);
      var reached := StoreOrForward(me, fromServer, Reply(parent, author, contents), nw, fates);
      answer := Some(if reached then Handlers.Success else Handlers.Failure);
      StoredIff(old(dbs), me, Reply(parent, author, contents));
    }
  }

  // The first `i` servers have been sent the write.
  predicate SentTo(was: seq<Db>, now: seq<Db>, w: Write, fates: seq<Handlers.Fate>, i: nat) {
    && |was| == |now| == |fates| && i <= |was|
    && forall j :: 0 <= j < |was| ==> now[j] == if j < i && !fates[j].Lost? then Apply(was[j], w).0 else was[j]
  }

  lemma SentNext(was: seq<Db>, now: seq<Db>, w: Write, fates: seq<Handlers.Fate>, i: nat)
    requires SentTo(was, now, w, fates, i) && i < |was|
    ensures SentTo(was, if fates[i].Lost? then now else now[i := Apply(now[i], w).0], w, fates, i + 1)
  {
  }

  // The loop has not been left before server `i`.
  predicate StillAsking(a: seq<bool>, nw: int, i: nat)
    requires i <= |a|
  {
    i > 0 ==> !Stopped(a, nw, i - 1)
  }

  predicate Progress(was: seq<Db>, now: seq<Db>, w: Write, nw: int, fates: seq<Handlers.Fate>, i: nat, success: int) {
    && SentTo(was, now, w, fates, i)
    && success == |Counted(Acks(fates), nw, i)| && StillAsking(Acks(fates), nw, i)
  }

  lemma ProgressNext(was: seq<Db>, before: seq<Db>, now: seq<Db>, w: Write, nw: int, fates: seq<Handlers.Fate>,
                     i: nat, count: int, success: int)
    requires Progress(was, before, w, nw, fates, i, count) && i < |was| && !Stopped(Acks(fates), nw, i)
    requires now == if fates[i].Lost? then before else before[i := Apply(before[i], w).0]
    requires success == count + if fates[i].Acked? then 1 else 0
    ensures Progress(was, now, w, nw, fates, i + 1, success)
    ensures Stopped(Acks(fates), nw, i + 1) <==> success >= nw
  {
    SentNext(was, before, w, fates, i);
  }

  // The loop leaves after server i-1: it is the servers below `i` that were asked.
  lemma SentAll(was: seq<Db>, now: seq<Db>, w: Write, nw: int, fates: seq<Handlers.Fate>, i: nat)
    requires SentTo(was, now, w, fates, i)
    requires StillAsking(Acks(fates), nw, i) && (i == |was| || Stopped(Acks(fates), nw, i))
    ensures var a := Acks(fates);
            && (|Counted(a, nw, i)| >= nw <==> Answered(a, |a|) >= nw)
            && forall j :: 0 <= j < |was| ==>
                 now[j] == if IsAsked(a, nw, j) && !fates[j].Lost? then Apply(was[j], w).0 else was[j]
  {
    var a := Acks(fates);
    if i > 0 {
      AskedUpTo(a, nw, i);
    }
    CountedExactly(a, nw, |a|);
    forall j | 0 <= j < |was| ensures IsAsked(a, nw, j) <==> !Stopped(a, nw, j) {
      CountedExactly(a, nw, j);
    }
  }

  // If the loop leaves after server i-1, it is the servers below i that are asked.
  lemma AskedUpTo(a: seq<bool>, nw: int, i: nat)
    requires 0 < i <= |a| && !Stopped(a, nw, i - 1) && (i == |a| || Stopped(a, nw, i))
    ensures forall j :: 0 <= j < |a| ==> (Stopped(a, nw, j) <==> j >= i)
    ensures |Counted(a, nw, |a|)| == |Counted(a, nw, i)|
  {
    forall j | 0 <= j < |a| ensures Stopped(a, nw, j) <==> j >= i {
      if j < i && Stopped(a, nw, j) {
        CountedStays(a, nw, j, i - 1);
      } else if j >= i {
        CountedStays(a, nw, i, j);
      }
    }
    if i < |a| {
      CountedStays(a, nw, i, |a|);
    }
  }

  lemma StoredIff(dbs: seq<Db>, me: nat, w: Write)
    requires me < |dbs|
    ensures dbs[me := Apply(dbs[me], w).0] == dbs <==>
              || |dbs[me].nodes| >= MAX_ARTICLES
              || (w.Reply? && forall n :: n in dbs[me].nodes ==> n.article.id != w.parent)
  {
    var db := dbs[me];
    assert dbs[me := Apply(db, w).0] == dbs <==> Apply(db, w).0 == db;
    if w.Reply? {
      var p := FindId(db.nodes, w.parent, 0);
      if p < |db.nodes| {
        assert db.nodes[p] in db.nodes;
      }
    }
  }

  /** A read is answered once Nr databases have come in, and then from the local database. What was
      pulled plays no part: with sound databases the answer is that of the newest database pulled
      exactly if that is the local one. */
  method QuorumRead(db: ArticleDatabase, pulled: seq<Option<Db>>, nr: int, out: array<Article>)
    returns (answer: Handlers.Answer, count: nat, ghost newest: Db)
    requires db.Valid() && WellLinked(db.Live().nodes) && out.Length >= MAX_ARTICLES && Versioned(pulled)
    modifies out
    ensures answer.Success? <==> Answered(Answering(pulled), |pulled|) >= nr
    ensures Highest(pulled, Counted(Answering(pulled), nr, |pulled|), newest)
    ensures answer.Success? ==> count == |db.Live().nodes| && out[..count] == Listed(db.Live().nodes)
    ensures answer.Success? && Sound(db.Live()) && Sound(newest) ==>
              (out[..count] == Listed(newest.nodes) <==> newest == db.Live())
    ensures answer.Failure? ==> out[..] == old(out[..])
  {
    count := 0;
    var reached, saved := ReadLoop(pulled, nr);
    newest := saved;
    if reached {
      count := db.Read(out);
      answer := Handlers.Success;
      if Sound(db.Live()) && Sound(newest) {
        ListedTells(db.Live(), newest);
      }
    } else {
      answer := Handlers.Failure;
    }
  }

  // -- What a read shows ---------------------------------------------------------------------------

  lemma ListedHolds(nodes: seq<Node>, x: Article)
    requires WellLinked(nodes)
    ensures x in Listed(nodes) <==> exists i :: 0 <= i < |nodes| && nodes[i].article == x
  {
    var order := Order(nodes);
    var listed := Listed(nodes);
    if x in listed {
      var k :| 0 <= k < |listed| && listed[k] == x;
      assert nodes[order[k]].article == x;
    }
    if i :| 0 <= i < |nodes| && nodes[i].article == x {
      var k := Find(order, i);
      assert listed[k] == x;
    }
  }

  lemma SameListedSameOrder(a: seq<Node>, b: seq<Node>)
    requires WellLinked(a) && WellLinked(b) && Listed(a) == Listed(b)
    ensures Order(a) == Order(b) && |a| == |b|
  {
    var p, q := Order(a), Order(b);
    forall k | 0 <= k < |p| ensures p[k] == q[k] {
      assert Listed(a)[k].id == p[k] && Listed(b)[k].id == q[k];
    }
  }

  lemma SameListedSameNode(a: seq<Node>, b: seq<Node>, i: nat)
    requires WellLinked(a) && WellLinked(b) && Listed(a) == Listed(b) && Order(a) == Order(b)
    requires i < |a| == |b|
    ensures a[i] == b[i]
  {
    var k := Find(Order(a), i);
    ChainNext(a, Order(a), k);
    ChainNext(b, Order(b), k);
    assert Listed(a)[k] == a[i].article && Listed(b)[k] == b[i].article;
  }

  /** Sound databases that list the same are the same. */
  lemma ListedTells(a: Db, b: Db)
    requires Sound(a) && Sound(b)
    ensures Listed(a.nodes) == Listed(b.nodes) <==> a == b
  {
    if Listed(a.nodes) == Listed(b.nodes) {
      SameListedSameOrder(a.nodes, b.nodes);
      forall i | 0 <= i < |a.nodes| ensures a.nodes[i] == b.nodes[i] {
        SameListedSameNode(a.nodes, b.nodes, i);
      }
    }
  }

  /** Who can read a write answered with success: after a post or reply stored at server `me`, a read at
      server `r` shows the new article if and only if `r` is `me` or showed that very article before. */
  lemma ShownExactly(dbs: seq<Db>, me: nat, w: Write, r: nat)
    requires me < |dbs| && r < |dbs| && forall i :: 0 <= i < |dbs| ==> Sound(dbs[i])
    requires Apply(dbs[me], w).1.Stored?
    ensures var after := dbs[me := Apply(dbs[me], w).0];
            && Sound(after[me]) && Sound(after[r]) && |after[me].nodes| == |dbs[me].nodes| + 1
            && var x := after[me].nodes[|dbs[me].nodes|].article;
               x in Listed(after[r].nodes) <==> r == me || x in Listed(dbs[r].nodes)
  {
    ApplyKeeps(dbs[me], w);
    WriteOutcome(dbs[me], w);
    var after := Apply(dbs[me], w).0;
    ListedHolds(after.nodes, after.nodes[|dbs[me].nodes|].article);
  }

  /** So a write and a read that each reach their quorum need not meet: with the accepted configuration
      Nr = 1, Nw = 2 of two servers, a post is answered with success at server 0, and a read at server 1
      that has pulled that very article succeeds and shows nothing. */
  method WrittenButNotRead(a: Server, b: Server, author: Text)
    returns (posted: Option<Handlers.Answer>, read: Handlers.Answer, shown: nat, ghost newest: Db)
    ensures Accepted(1, 2, 2)
    ensures posted == Some(Handlers.Success) && read.Success? && shown == 0
    ensures |newest.nodes| == 1 && newest.nodes[0].article.author == author
  {
    var group := new QuorumGroup([a, b]);
    posted := group.QuorumPost(0, Some(a), author, [], [], 2, [Handlers.Acked, Handlers.Acked]);
    var first := group.dbs[0];
    assert first == Apply(EMPTY, Post(author, [], [])).0;
    var slots := new Node[MAX_ARTICLES](_ => Node(-1, Article(0, -1, 0, [], [], [])));
    var out := new Article[MAX_ARTICLES](_ => Article(0, -1, 0, [], [], []));
    var local := new ArticleDatabase(slots);
    assert group.dbs[1] == local.Live();
    RunSound([]);
    var pulled := [Some(first), Some(group.dbs[1])];
    assert Counted(Answering(pulled), 1, 1) == [0];
    CountedStays(Answering(pulled), 1, 1, 2);
    read, shown, newest := QuorumRead(local, pulled, 1, out);
  }
}
