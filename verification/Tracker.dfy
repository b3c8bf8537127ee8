/** The tracker's table of peers: a fixed array of slots that request threads fill and refresh and a
    sweeper empties, and the two queries over it. */
module Tracker {
  import opened CTypes

  const MAX_PEERS: nat := 64
  const MAX_FILES: nat := 64
  const TIMEOUT: int := 5

  datatype Peer = Peer(addr: Text, port: int, latitude: real, longitude: real)

  // `files` holds the announced files only, not the rest of the slot's file array.
  datatype Entry = Entry(active: bool, peer: Peer, files: seq<FileInfo>, timestamp: int)

  type Table = seq<Entry>

  predicate SameHost(p: Peer, q: Peer) { p.addr == q.addr && p.port == q.port }

  predicate Holds(e: Entry, p: Peer) { e.active && SameHost(p, e.peer) }

  predicate Known(t: Table, p: Peer) { exists i :: 0 <= i < |t| && Holds(t[i], p) }

  predicate Full(t: Table) { forall i :: 0 <= i < |t| ==> t[i].active }

  // No two active slots hold the same address and port.
  predicate Distinct(t: Table) {
    forall i, j :: 0 <= i < j < |t| && t[i].active && t[j].active ==> !SameHost(t[i].peer, t[j].peer)
  }

  // The number of active slots among the first `n`.
  function Count(t: Table, n: nat): nat
    requires n <= |t|
  {
    if n == 0 then 0 else Count(t, n - 1) + (if t[n - 1].active then 1 else 0)
  }

  lemma {:induction false} CountUpdate(t: Table, i: nat, e: Entry, n: nat)
    requires i < |t| && n <= |t|
    ensures Count(t[i := e], n)
            == Count(t, n) + (if i < n && e.active then 1 else 0) - (if i < n && t[i].active then 1 else 0)
  {
    if n > 0 {
      CountUpdate(t, i, e, n - 1);
    }
  }

  function ActiveSlots(t: Table, n: nat): set<nat>
    requires n <= |t|
  {
    set i: nat | i < n && t[i].active
  }

  /** The count is the number of active slots. */
  lemma {:induction false} CountSlots(t: Table, n: nat)
    requires n <= |t|
    ensures Count(t, n) == |ActiveSlots(t, n)|
  {
    if n > 0 {
      CountSlots(t, n - 1);
      var r := ActiveSlots(t, n - 1);
      assert ActiveSlots(t, n) == if t[n - 1].active then r + {n - 1} else r;
    }
  }

  lemma {:induction false} CountAtMost(t: Table, n: nat)
    requires n <= |t|
    ensures Count(t, n) <= n
    ensures Count(t, n) == n <==> forall i :: 0 <= i < n ==> t[i].active
  {
    if n > 0 {
      CountAtMost(t, n - 1);
    }
  }

  // -- Updates ------------------------------------------------------------------------------------

  // The slot holds `p`, and it is the first to.
  predicate FirstHolding(t: Table, p: Peer, i: nat) {
    i < |t| && Holds(t[i], p) && forall j :: 0 <= j < i ==> !Holds(t[j], p)
  }

  predicate FirstFree(t: Table, i: nat) {
    i < |t| && !t[i].active && forall j :: 0 <= j < i ==> t[j].active
  }

  // What announcing `files` does. A known peer keeps its recorded position.
  ghost predicate Announces(t: Table, t': Table, p: Peer, files: seq<FileInfo>, now: int) {
    if Known(t, p) then
      exists i: nat :: FirstHolding(t, p, i) && t' == t[i := t[i].(files := files, timestamp := now)]
    else if Full(t) then
      t' == t
    else
      exists i: nat :: FirstFree(t, i) && t' == t[i := Entry(true, p, files, now)]
  }

  ghost predicate Refreshes(t: Table, t': Table, p: Peer, now: int) {
    if Known(t, p) then
      exists i: nat :: FirstHolding(t, p, i) && t' == t[i := t[i].(timestamp := now)]
    else
      t' == t
  }

  // An active slot with this address and port.
  predicate HostAt(e: Entry, addr: Text, port: int) { e.active && e.peer.addr == addr && e.peer.port == port }

  // After an announcement slot `i`, and no other, is that of the peer: it holds the announced files and
  // the time, and all other slots are as they were.
  predicate OnRecord(t: Table, t': Table, i: nat, p: Peer, files: seq<FileInfo>, now: int) {
    && i < |t| == |t'|
    && HostAt(t'[i], p.addr, p.port) && t'[i].files == files && t'[i].timestamp == now
    && (t'[i].peer == if HostAt(t[i], p.addr, p.port) then t[i].peer else p)
    && (HostAt(t[i], p.addr, p.port) || !t[i].active)
    && (forall j :: 0 <= j < |t| && j != i ==> t'[j] == t[j] && !HostAt(t[j], p.addr, p.port))
  }

  lemma HostOnce(t: Table, i: nat, j: nat, addr: Text, port: int)
    requires Distinct(t) && i < |t| && j < |t| && HostAt(t[i], addr, port) && HostAt(t[j], addr, port)
    ensures i == j
  {
  }

  /** In runs as well: an announcement that finds its peer or a free slot puts exactly the announced files
      on record, in one slot. */
  lemma AnnouncedExactly(t: Table, t': Table, p: Peer, files: seq<FileInfo>, now: int)
    requires Distinct(t) && Announces(t, t', p, files, now) && (Known(t, p) || !Full(t))
    ensures exists i: nat :: OnRecord(t, t', i, p, files, now)
  {
    if Known(t, p) {
      var i: nat :| FirstHolding(t, p, i) && t' == t[i := t[i].(files := files, timestamp := now)];
      forall j: nat | j < |t| && HostAt(t[j], p.addr, p.port) ensures j == i {
        HostOnce(t, i, j, p.addr, p.port);
      }
      assert OnRecord(t, t', i, p, files, now);
    } else {
      var i: nat :| FirstFree(t, i) && t' == t[i := Entry(true, p, files, now)];
      forall j | 0 <= j < |t| && j != i ensures !HostAt(t[j], p.addr, p.port) {
        assert !Holds(t[j], p);
      }
      assert OnRecord(t, t', i, p, files, now);
    }
  }

  /** So the peer is among the hosts of a name if and only if it just announced a file of that name, and
      nobody else's files are affected. */
  lemma AnnouncedIsFound(t: Table, t': Table, i: nat, p: Peer, files: seq<FileInfo>, now: int, name: Text)
    requires OnRecord(t, t', i, p, files, now)
    ensures i in HostSlots(t', |t'|, name) <==> exists f :: f in files && f.name == name
    ensures forall j: nat :: j != i ==> (j in HostSlots(t', |t'|, name) <==> j in HostSlots(t, |t|, name))
  {
    HostSlotsExact(t, |t|, name);
    HostSlotsExact(t', |t'|, name);
    NamedByFile(files, name);
  }

  predicate TimedOut(e: Entry, clock: int) { e.active && clock - e.timestamp > TIMEOUT }

  // A sweep with the clock reading `clock` clears exactly the slots that have timed out by then.
  predicate Sweeps(t: Table, t': Table, clock: int) {
    && |t'| == |t|
    && forall i :: 0 <= i < |t| ==> t'[i] == if TimedOut(t[i], clock) then t[i].(active := false) else t[i]
  }

  // Some active slot records exactly this peer, position included.
  predicate Recorded(t: Table, p: Peer) { exists i :: 0 <= i < |t| && t[i].active && t[i].peer == p }

  /** An announced position is recorded exactly if the peer is new and finds a slot, or the same
      position was on record before: a known peer that has moved keeps its old one. */
  lemma PositionKept(t: Table, t': Table, p: Peer, files: seq<FileInfo>, now: int)
    requires Announces(t, t', p, files, now)
    ensures Recorded(t', p) <==> if Known(t, p) then Recorded(t, p) else !Full(t)
  {
    if Known(t, p) {
      var i: nat :| FirstHolding(t, p, i) && t' == t[i := t[i].(files := files, timestamp := now)];
      forall j | 0 <= j < |t| ensures t'[j].active == t[j].active && t'[j].peer == t[j].peer {
      }
    } else {
      forall j | 0 <= j < |t| ensures !(t[j].active && t[j].peer == p) {
        assert !Holds(t[j], p);
      }
      if !Full(t) {
        var i: nat :| FirstFree(t, i) && t' == t[i := Entry(true, p, files, now)];
        assert t'[i].active && t'[i].peer == p;
      }
    }
  }

  // -- Queries ------------------------------------------------------------------------------------

  predicate Named(files: seq<FileInfo>, name: Text) {
    exists j :: 0 <= j < |files| && files[j].name == name
  }

  predicate Hosts(e: Entry, name: Text) { e.active && Named(e.files, name) }

  // The slots among the first `n` that host `name`, in order.
  function HostSlots(t: Table, n: nat, name: Text): seq<nat>
    requires n <= |t|
  {
    if n == 0 then []
    else if Hosts(t[n - 1], name) then HostSlots(t, n - 1, name) + [n - 1]
    else HostSlots(t, n - 1, name)
  }

  // All files of the first `n` slots that are active, in slot order.
  function Shared(t: Table, n: nat): seq<FileInfo>
    requires n <= |t|
  {
    if n == 0 then []
    else if t[n - 1].active then Shared(t, n - 1) + t[n - 1].files
    else Shared(t, n - 1)
  }

  // The first file of each name.
  function Firsts(files: seq<FileInfo>): seq<FileInfo> {
    if files == [] then []
    else
      var last := |files| - 1;
      var before := Firsts(files[..last]);
      if Named(before, files[last].name) then before else before + [files[last]]
  }

  lemma {:induction false} HostSlotsExact(t: Table, n: nat, name: Text)
    requires n <= |t|
    ensures var s := HostSlots(t, n, name);
            && (forall a, b :: 0 <= a < b < |s| ==> s[a] < s[b])
            && (forall i :: i in s <==> 0 <= i < n && Hosts(t[i], name))
  {
    if n > 0 {
      HostSlotsExact(t, n - 1, name);
      var r := HostSlots(t, n - 1, name);
      var s := HostSlots(t, n, name);
      assert forall a :: 0 <= a < |r| ==> r[a] in r;
      forall i ensures i in s <==> 0 <= i < n && Hosts(t[i], name) {
        assert i in s <==> i in r || (i == n - 1 && Hosts(t[n - 1], name));
      }
    }
  }

  lemma {:induction false} SharedNames(t: Table, n: nat, name: Text)
    requires n <= |t|
    ensures Named(Shared(t, n), name) <==> exists i :: 0 <= i < n && Hosts(t[i], name)
  {
    if n > 0 {
      SharedNames(t, n - 1, name);
      NamedConcat(Shared(t, n - 1), t[n - 1].files, name);
    }
  }

  lemma NamedByFile(files: seq<FileInfo>, name: Text)
    ensures Named(files, name) <==> exists f :: f in files && f.name == name
  {
    if j :| 0 <= j < |files| && files[j].name == name {
      assert files[j] in files;
    }
    if f :| f in files && f.name == name {
      var j :| 0 <= j < |files| && files[j] == f;
      assert files[j].name == name;
    }
  }

  lemma NamedConcat(a: seq<FileInfo>, b: seq<FileInfo>, name: Text)
    ensures Named(a + b, name) <==> Named(a, name) || Named(b, name)
  {
    if j :| 0 <= j < |a| && a[j].name == name {
      assert (a + b)[j].name == name;
    }
    if j :| 0 <= j < |b| && b[j].name == name {
      assert (a + b)[|a| + j].name == name;
    }
  }

  predicate DistinctNames(files: seq<FileInfo>) {
    forall a, b :: 0 <= a < b < |files| ==> files[a].name != files[b].name
  }

  lemma {:induction false} FirstsDistinct(files: seq<FileInfo>)
    ensures DistinctNames(Firsts(files))
  {
    if files != [] {
      FirstsDistinct(files[..|files| - 1]);
    }
  }

  lemma {:induction false} FirstsNames(files: seq<FileInfo>, name: Text)
    ensures Named(Firsts(files), name) <==> Named(files, name)
  {
    if files != [] {
      var last := |files| - 1;
      FirstsNames(files[..last], name);
      FirstsNames(files[..last], files[last].name);
      NamedConcat(files[..last], [files[last]], name);
      NamedConcat(Firsts(files[..last]), [files[last]], name);
      assert files == files[..last] + [files[last]];
      assert Named([files[last]], name) <==> files[last].name == name;
    }
  }

  // The first file of its name in the list.
  predicate IsFirst(files: seq<FileInfo>, j: nat) {
    j < |files| && !Named(files[..j], files[j].name)
  }

  // Where the k-th of the first files stands in the list.
  function FirstIndex(files: seq<FileInfo>, k: nat): (j: nat)
    requires k < |Firsts(files)|
    ensures j < |files|
  {
    var last := |files| - 1;
    if k < |Firsts(files[..last])| then FirstIndex(files[..last], k) else last
  }

  lemma {:induction false} FirstsAreFirst(files: seq<FileInfo>, k: nat)
    requires k < |Firsts(files)|
    ensures var j := FirstIndex(files, k); IsFirst(files, j) && Firsts(files)[k] == files[j]
    ensures forall l: nat :: l < k ==> FirstIndex(files, l) < FirstIndex(files, k)
  {
    var last := |files| - 1;
    if k < |Firsts(files[..last])| {
      FirstsAreFirst(files[..last], k);
      var j := FirstIndex(files, k);
      assert files[..last][..j] == files[..j];
    } else {
      FirstsNames(files[..last], files[last].name);
    }
  }

  // Slot and place of the m-th of the shared files.
  function SharedAt(t: Table, n: nat, m: nat): (at: (nat, nat))
    requires n <= |t| && m < |Shared(t, n)|
    ensures at.0 < n && t[at.0].active && at.1 < |t[at.0].files| && t[at.0].files[at.1] == Shared(t, n)[m]
  {
    var before := |Shared(t, n - 1)|;
    if m < before then SharedAt(t, n - 1, m) else (n - 1, m - before)
  }

  predicate Earlier(a: (nat, nat), b: (nat, nat)) { a.0 < b.0 || (a.0 == b.0 && a.1 < b.1) }

  lemma {:induction false} SharedInOrder(t: Table, n: nat, l: nat, m: nat)
    requires n <= |t| && l < m < |Shared(t, n)|
    ensures Earlier(SharedAt(t, n, l), SharedAt(t, n, m))
  {
    if m < |Shared(t, n - 1)| {
      SharedInOrder(t, n - 1, l, m);
    }
  }

  // `f` is what slot and place `at` hold, and neither an active slot before it nor an earlier place of that
  // slot holds a file of its name.
  predicate FirstHost(t: Table, at: (nat, nat), f: FileInfo) {
    && at.0 < |t| && t[at.0].active && at.1 < |t[at.0].files| && t[at.0].files[at.1] == f
    && (forall b :: 0 <= b < at.1 ==> t[at.0].files[b].name != f.name)
    && (forall a, b :: 0 <= a < at.0 && t[a].active && 0 <= b < |t[a].files| ==> t[a].files[b].name != f.name)
  }

  lemma {:induction false} SharedFirst(t: Table, n: nat, m: nat)
    requires n <= |t| && IsFirst(Shared(t, n), m)
    ensures FirstHost(t, SharedAt(t, n, m), Shared(t, n)[m])
  {
    var before := Shared(t, n - 1);
    if m < |before| {
      assert before[..m] == Shared(t, n)[..m];
      SharedFirst(t, n - 1, m);
    } else {
      FirstInSlot(t, n, m - |before|);
    }
  }

  lemma FirstInSlot(t: Table, n: nat, j: nat)
    requires 0 < n <= |t| && t[n - 1].active && j < |t[n - 1].files|
    requires IsFirst(Shared(t, n), |Shared(t, n - 1)| + j)
    ensures FirstHost(t, (n - 1, j), t[n - 1].files[j])
  {
    var before, files := Shared(t, n - 1), t[n - 1].files;
    assert Shared(t, n)[..|before| + j] == before + files[..j];
    NamedConcat(before, files[..j], files[j].name);
    SharedNames(t, n - 1, files[j].name);
    forall a, b | 0 <= a < n - 1 && t[a].active && 0 <= b < |t[a].files| ensures t[a].files[b].name != files[j].name {
      assert !Hosts(t[a], files[j].name);
    }
    forall b | 0 <= b < j ensures files[b].name != files[j].name {
      assert files[..j][b] == files[b];
    }
  }

  function Discovered(t: Table): seq<FileInfo> { Firsts(Shared(t, |t|)) }

  /** The queries agree in every table: a name is found at some peer exactly if it is discovered. */
  lemma QueriesAgree(t: Table, name: Text)
    ensures HostSlots(t, |t|, name) != [] <==> Named(Discovered(t), name)
    ensures Named(Discovered(t), name) <==> exists i :: 0 <= i < |t| && Hosts(t[i], name)
  {
    SharedNames(t, |t|, name);
    FirstsNames(Shared(t, |t|), name);
    HostSlotsExact(t, |t|, name);
    var s := HostSlots(t, |t|, name);
    if s != [] {
      assert s[0] in s;
    }
  }

  // Where the discovered files come from.
  function DiscoveredAt(t: Table): (at: seq<(nat, nat)>)
    ensures |at| == |Discovered(t)|
  {
    var all := Shared(t, |t|);
    seq(|Firsts(all)|, k requires 0 <= k < |Firsts(all)| => SharedAt(t, |t|, FirstIndex(all, k)))
  }

  lemma DiscoveredInOrder(t: Table)
    ensures forall k :: 0 <= k < |Discovered(t)| ==> FirstHost(t, DiscoveredAt(t)[k], Discovered(t)[k])
    ensures forall k, l :: 0 <= k < l < |Discovered(t)| ==> Earlier(DiscoveredAt(t)[k], DiscoveredAt(t)[l])
  {
    var all := Shared(t, |t|);
    forall k | 0 <= k < |Discovered(t)| ensures FirstHost(t, DiscoveredAt(t)[k], Discovered(t)[k]) {
      FirstsAreFirst(all, k);
      SharedFirst(t, |t|, FirstIndex(all, k));
    }
    forall k, l | 0 <= k < l < |Discovered(t)| ensures Earlier(DiscoveredAt(t)[k], DiscoveredAt(t)[l]) {
      FirstsAreFirst(all, l);
      SharedInOrder(t, |t|, FirstIndex(all, k), FirstIndex(all, l));
    }
  }

  lemma DiscoveredAll(t: Table, i: nat, f: FileInfo)
    requires i < |t| && t[i].active && f in t[i].files
    ensures exists g :: g in Discovered(t) && g.name == f.name
  {
    QueriesAgree(t, f.name);
    NamedByFile(t[i].files, f.name);
    NamedByFile(Discovered(t), f.name);
    assert Hosts(t[i], f.name);
  }

  // -- The table ----------------------------------------------------------------------------------

  class PeerTable {
    const db: array<Entry>
    var peerCount: int

    ghost predicate Valid()
      reads this, db
    {
      db.Length == MAX_PEERS && Distinct(db[..]) && peerCount == Count(db[..], MAX_PEERS)
    }

    // Clears the active flag of every slot; the rest of each slot keeps what it held.
    constructor (slots: array<Entry>)
      requires slots.Length == MAX_PEERS
      modifies slots
      ensures Valid() && db == slots && peerCount == 0
      ensures forall i :: 0 <= i < MAX_PEERS ==> db[i] == old(slots[i]).(active := false)
    {
      db := slots;
      peerCount := 0;
      new;
      for i := 0 to MAX_PEERS
        invariant peerCount == 0
        invariant forall k :: 0 <= k < i ==> slots[k] == old(slots[k]).(active := false)
        invariant forall k :: i <= k < MAX_PEERS ==> slots[k] == old(slots[k])
      {
        slots[i] := slots[i].(active := false);
      }
      ghost var t := db[..];
      assert forall k :: 0 <= k < MAX_PEERS ==> !t[k].active;
      NoneActive(t, MAX_PEERS);
    }

    /** A peer announces its files: refreshed if known, otherwise put in the first free slot. It fails
        exactly if the peer is new and every slot is taken. */
    method AddPeer(p: Peer, files: seq<FileInfo>, now: int) returns (error: bool)
      requires Valid() && |files| <= MAX_FILES
      modifies this`peerCount, db
      ensures Valid() && Announces(old(db[..]), db[..], p, files, now)
      ensures error <==> (forall i :: 0 <= i < 64 ==> old(db[..])[i].active)
                         && forall i :: 0 <= i < 64 ==> !HostAt(old(db[..])[i], p.addr, p.port)
      ensures error ==> db[..] == old(db[..])
      ensures !error ==> exists i: nat :: OnRecord(old(db[..]), db[..], i, p, files, now)
      ensures !error ==> Known(db[..], p)
      ensures peerCount == old(peerCount) + if error || Known(old(db[..]), p) then 0 else 1
    {
      ghost var t := db[..];
      error := false;
      for i := 0 to MAX_PEERS
        invariant forall k :: 0 <= k < i ==> !Holds(t[k], p)
        invariant db[..] == t && Valid() && peerCount == old(peerCount)
      {
        if db[i].active && SameHost(p, db[i].peer) {
          CountUpdate(t, i, t[i].(files := files, timestamp := now), MAX_PEERS);
          db[i] := db[i].(files := files, timestamp := now);
          assert FirstHolding(t, p, i) && db[..] == t[i := t[i].(files := files, timestamp := now)];
          assert Holds(db[..][i], p);
          AnnouncedExactly(t, db[..], p, files, now);
          return;
        }
      }
      for i := 0 to MAX_PEERS
        invariant forall k :: 0 <= k < i ==> t[k].active
        invariant db[..] == t && Valid() && peerCount == old(peerCount)
      {
        if !db[i].active {
          CountUpdate(t, i, Entry(true, p, files, now), MAX_PEERS);
          db[i] := Entry(true, p, files, now);
          peerCount := peerCount + 1;
          assert FirstFree(t, i) && db[..] == t[i := Entry(true, p, files, now)];
          assert Holds(db[..][i], p);
          AnnouncedExactly(t, db[..], p, files, now);
          return;
        }
      }
      error := true;
    }

    /** A peer pings. It fails exactly if the peer is not known. */
    method KeepAlive(p: Peer, now: int) returns (error: bool)
      requires Valid()
      modifies db
      ensures Valid() && Refreshes(old(db[..]), db[..], p, now)
      ensures error <==> forall i :: 0 <= i < MAX_PEERS ==> !HostAt(old(db[..])[i], p.addr, p.port)
      ensures forall i :: 0 <= i < MAX_PEERS ==>
                var e := old(db[..])[i];
                db[i] == if HostAt(e, p.addr, p.port) then e.(timestamp := now) else e
    {
      ghost var t := db[..];
      error := false;
      for i := 0 to MAX_PEERS
        invariant forall k :: 0 <= k < i ==> !Holds(t[k], p)
        invariant db[..] == t && Valid()
      {
        if db[i].active && SameHost(p, db[i].peer) {
          CountUpdate(t, i, t[i].(timestamp := now), MAX_PEERS);
          db[i] := db[i].(timestamp := now);
          assert FirstHolding(t, p, i) && db[..] == t[i := t[i].(timestamp := now)];
          return;
        }
      }
      error := true;
    }

    /** One pass of the sweeper with a clock read earlier. */
    method Sweep(clock: int)
      requires Valid()
      modifies this`peerCount, db
      ensures Valid() && Sweeps(old(db[..]), db[..], clock)
      ensures forall i :: 0 <= i < MAX_PEERS ==>
                var e := old(db[..])[i];
                db[i] == if e.active && clock - e.timestamp > 5 then e.(active := false) else e
      ensures peerCount == |set i: nat | i < MAX_PEERS && old(db[..])[i].active && !TimedOut(old(db[..])[i], clock)|
    {
      ghost var t := db[..];
      for i := 0 to MAX_PEERS
        invariant forall k :: 0 <= k < i ==> db[k] == if TimedOut(t[k], clock) then t[k].(active := false) else t[k]
        invariant forall k :: i <= k < MAX_PEERS ==> db[k] == t[k]
        invariant Valid()
      {
        if db[i].active && clock - db[i].timestamp > TIMEOUT {
          ghost var d := db[..];
          CountUpdate(d, i, d[i].(active := false), MAX_PEERS);
          db[i] := db[i].(active := false);
          assert db[..] == d[i := d[i].(active := false)];
          peerCount := peerCount - 1;
        }
      }
      CountSlots(db[..], MAX_PEERS);
      assert ActiveSlots(db[..], MAX_PEERS) == set i: nat | i < MAX_PEERS && t[i].active && !TimedOut(t[i], clock);
    }

    /** Every peer that hosts the name, once, in slot order. */
    method FindFile(name: Text) returns (peers: seq<Peer>, ghost slots: seq<nat>)
      requires Valid()
      ensures slots == HostSlots(db[..], MAX_PEERS, name) && |peers| == |slots|
      ensures forall k :: 0 <= k < |peers| ==> slots[k] < MAX_PEERS && peers[k] == db[slots[k]].peer
      ensures forall i :: i in slots <==>
                0 <= i < MAX_PEERS && db[i].active && exists f :: f in db[i].files && f.name == name
      ensures forall a, b :: 0 <= a < b < |peers| ==> !SameHost(peers[a], peers[b])
    {
      peers, slots := [], [];
      for i := 0 to MAX_PEERS
        invariant slots == HostSlots(db[..], i, name) && |peers| == |slots|
        invariant forall k :: 0 <= k < |peers| ==> slots[k] < i && peers[k] == db[slots[k]].peer
      {
        if db[i].active {
          for j := 0 to |db[i].files|
            invariant !Named(db[i].files[..j], name)
            invariant slots == HostSlots(db[..], i, name) && |peers| == |slots|
            invariant forall k :: 0 <= k < |peers| ==> slots[k] < i && peers[k] == db[slots[k]].peer
          {
            if db[i].files[j].name == name {
              peers := peers + [db[i].peer];
              slots := slots + [i];
              break;
            }
          }
        }
      }
      HostSlotsExact(db[..], MAX_PEERS, name);
      assert forall k :: 0 <= k < |slots| ==> slots[k] in slots;
      forall i | 0 <= i < MAX_PEERS
        ensures Named(db[i].files, name) <==> exists f :: f in db[i].files && f.name == name
      {
        NamedByFile(db[i].files, name);
      }
    }

    /** One file of every name that some active peer hosts: the first of its name in the lowest slot that
        hosts it, in the order of slots and places. */
    method DiscoverFiles() returns (files: seq<FileInfo>, ghost at: seq<(nat, nat)>)
      requires Valid()
      ensures files == Discovered(db[..]) && |at| == |files|
      ensures forall k :: 0 <= k < |files| ==> FirstHost(db[..], at[k], files[k])
      ensures forall k, l :: 0 <= k < l < |files| ==> Earlier(at[k], at[l]) && files[k].name != files[l].name
      ensures forall i, f :: 0 <= i < MAX_PEERS && db[i].active && f in db[i].files ==>
                exists g :: g in files && g.name == f.name
    {
      files := [];
      ghost var t := db[..];
      for i := 0 to MAX_PEERS
        invariant files == Firsts(Shared(t, i))
      {
        if db[i].active {
          files := AddNewNames(files, db[i].files, Shared(t, i));
        }
      }
      FirstsDistinct(Shared(t, MAX_PEERS));
      DiscoveredInOrder(t);
      at := DiscoveredAt(t);
      forall i, f | 0 <= i < MAX_PEERS && db[i].active && f in db[i].files
        ensures exists g :: g in files && g.name == f.name
      {
        DiscoveredAll(t, i, f);
      }
    }
  }

  // The middle loop: a file is taken over unless its name is already out.
  method AddNewNames(out: seq<FileInfo>, files: seq<FileInfo>, ghost seen: seq<FileInfo>) returns (now: seq<FileInfo>)
    requires out == Firsts(seen)
    ensures now == Firsts(seen + files)
  {
    now := out;
    assert seen + files[..0] == seen;
    for j := 0 to |files|
      invariant now == Firsts(seen + files[..j])
    {
      var duplicate := AlreadyOut(now, files[j].name);
      FirstsNext(seen, files, j);
      if !duplicate {
        now := now + [files[j]];
      }
    }
    assert seen + files[..|files|] == seen + files;
  }

  // The innermost loop.
  method AlreadyOut(out: seq<FileInfo>, name: Text) returns (duplicate: bool)
    ensures duplicate <==> Named(out, name)
  {
    duplicate := false;
    for k := 0 to |out|
      invariant !duplicate && forall i :: 0 <= i < k ==> out[i].name != name
    {
      if name == out[k].name {
        return true;
      }
    }
  }

  lemma FirstsNext(seen: seq<FileInfo>, files: seq<FileInfo>, j: nat)
    requires j < |files|
    ensures var out := Firsts(seen + files[..j]);
            Firsts(seen + files[..j + 1]) == if Named(out, files[j].name) then out else out + [files[j]]
  {
    assert (seen + files[..j + 1])[..|seen| + j] == seen + files[..j];
  }

  lemma {:induction false} NoneActive(t: Table, n: nat)
    requires n <= |t| && forall i :: 0 <= i < n ==> !t[i].active
    ensures Count(t, n) == 0
  {
    if n > 0 {
      NoneActive(t, n - 1);
    }
  }
}
