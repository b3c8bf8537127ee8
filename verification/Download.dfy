/** The checked download between peers: the answer's byte form, the peer that answers and may damage
    the data after taking the checksum, and the loop that retries until a checksum matches. */
module Download {
  import opened CTypes
  import opened Crc32
  import opened MessageCodec
  import Burst

  const ERROR_RESPONSE: nat := 0x1000
  const DOWNLOAD_RESPONSE: nat := 0x7001
  const MAX_FILE_SIZE: nat := 1000000
  const MAX_PEER_MSG_SIZE: nat := MAX_FILE_SIZE
  const RETRY_ATTEMPTS_PER_PEER: nat := 5

  // -- The byte form ------------------------------------------------------------------------------

  function ToByte(b: bv8): byte { b as int }

  function FromByte(b: byte): bv8 { (b as int) as bv8 }

  lemma ByteRoundTrip(b: bv8)
    ensures FromByte(ToByte(b)) == b
  {
  }

  function CheckWord(c: bv32): (w: nat)
    ensures w < TWO32
  {
    c as int
  }

  function WordCheck(w: nat): bv32
    requires w < TWO32
  {
    w as bv32
  }

  lemma CheckRoundTrip(c: bv32)
    ensures WordCheck(CheckWord(c)) == c
  {
  }

  function Raw(data: seq<bv8>): (raw: seq<byte>)
    ensures |raw| == |data| && forall i :: 0 <= i < |data| ==> raw[i] == ToByte(data[i])
  {
    seq(|data|, i requires 0 <= i < |data| => ToByte(data[i]))
  }

  // The size of a file travels in the message, its data after it.
  predicate FitsFile(info: FileInfo, data: seq<bv8>) {
    && 0 !in info.name && info.size == |data|
    && FitsMessage(info.name, |data|)
  }

  // The answer that carries `size` bytes under this name fits the peers' message buffers.
  predicate FitsMessage(name: Text, size: nat) {
    HEADER_SIZE + |name| + 1 + 8 + size <= MAX_PEER_MSG_SIZE
  }

  /** Exactly which files can be sent: the largest one supported is not among them. */
  lemma FitsExactly(name: Text, size: nat)
    ensures FitsMessage(name, size) <==> |name| + size <= 999975
    ensures !FitsMessage(name, MAX_FILE_SIZE)
  {
  }

  function FileBytes(info: FileInfo, data: seq<bv8>): seq<byte>
    requires info.size < TWO32
  {
    TextBytes(info.name) + Bytes(info.size) + Bytes(CheckWord(info.checksum)) + Raw(data)
  }

  ghost predicate CarriesFile(msg: seq<byte>, info: FileInfo, data: seq<bv8>) {
    FitsFile(info, data) && At(msg, HEADER_SIZE, FileBytes(info, data))
  }

  lemma FileParts(msg: seq<byte>, info: FileInfo, data: seq<bv8>)
    requires CarriesFile(msg, info, data)
    ensures var pos := HEADER_SIZE + |info.name| + 1;
            && At(msg, HEADER_SIZE, TextBytes(info.name)) && At(msg, pos, Bytes(info.size))
            && At(msg, pos + 4, Bytes(CheckWord(info.checksum))) && At(msg, pos + 8, Raw(data))
  {
    var name, size, check := TextBytes(info.name), Bytes(info.size), Bytes(CheckWord(info.checksum));
    AtSplit(msg, HEADER_SIZE, name + size + check, Raw(data));
    AtSplit(msg, HEADER_SIZE, name + size, check);
    AtSplit(msg, HEADER_SIZE, name, size);
  }

  lemma SameData(msg: seq<byte>, pos: nat, x: seq<bv8>, y: seq<bv8>)
    requires |x| == |y| && At(msg, pos, Raw(x)) && At(msg, pos, Raw(y))
    ensures x == y
  {
    forall i | 0 <= i < |x| ensures x[i] == y[i] {
      assert Raw(x)[i] == msg[pos..pos + |x|][i] == Raw(y)[i];
      ByteRoundTrip(x[i]);
      ByteRoundTrip(y[i]);
    }
  }

  /** A message carries at most one file. */
  lemma CarriesOneFile(msg: seq<byte>, info: FileInfo, data: seq<bv8>, info': FileInfo, data': seq<bv8>)
    requires CarriesFile(msg, info, data) && CarriesFile(msg, info', data')
    ensures info == info' && data == data'
  {
    FileParts(msg, info, data);
    FileParts(msg, info', data');
    SameText(msg, HEADER_SIZE, info.name, info'.name);
    WordRoundTrip(info.size);
    WordRoundTrip(info'.size);
    WordRoundTrip(CheckWord(info.checksum));
    WordRoundTrip(CheckWord(info'.checksum));
    CheckRoundTrip(info.checksum);
    CheckRoundTrip(info'.checksum);
    SameData(msg, HEADER_SIZE + |info.name| + 9, data, data');
  }

  // memcpy into the message
  method PutRaw(buf: array<byte>, pos: nat, data: seq<bv8>)
    requires pos + |data| <= buf.Length
    modifies buf
    ensures Wrote(old(buf[..]), buf[..], pos, Raw(data))
  {
    for i := 0 to |data|
      invariant forall k :: 0 <= k < i ==> buf[pos + k] == ToByte(data[k])
      invariant forall k :: 0 <= k < buf.Length && !(pos <= k < pos + i) ==> buf[k] == old(buf[k])
    {
      buf[pos + i] := ToByte(data[i]);
    }
    assert buf[..][pos..pos + |data|] == Raw(data);
  }

  method GetRaw(msg: seq<byte>, pos: nat, size: nat, out: array<bv8>, ghost data: seq<bv8>)
    requires size == |data| <= out.Length && At(msg, pos, Raw(data))
    modifies out
    ensures out[..size] == data && forall k :: size <= k < out.Length ==> out[k] == old(out[k])
  {
    for i := 0 to size
      invariant forall k :: 0 <= k < i ==> out[k] == data[k]
      invariant forall k :: i <= k < out.Length ==> out[k] == old(out[k])
    {
      assert msg[pos + i] == msg[pos..pos + size][i] == Raw(data)[i];
      ByteRoundTrip(data[i]);
      out[i] := FromByte(msg[pos + i]);
    }
  }

  method GetSizeWord(msg: seq<byte>, pos: nat, ghost w: nat) returns (r: nat)
    requires w < TWO32 && At(msg, pos, Bytes(w))
    ensures r == w
  {
    WordRoundTrip(w);
    r := GetWord(msg, pos);
  }

  /** Builds the answer: name, size, checksum, then the data. */
  method BuildDownload(buf: array<byte>, id: int, info: FileInfo, data: seq<bv8>) returns (bytesWritten: nat)
    requires FitsFile(info, data) && buf.Length == MAX_PEER_MSG_SIZE
    modifies buf
    ensures HEADER_SIZE + bytesWritten <= buf.Length && bytesWritten == |FileBytes(info, data)|
    ensures At(buf[..], 0, HeaderBytes(DOWNLOAD_RESPONSE, id, bytesWritten) + FileBytes(info, data))
  {
    ghost var b0 := buf[..];
    bytesWritten := PutFile(buf, info, data);
    ghost var b1 := buf[..];
    BuildHeader(buf, DOWNLOAD_RESPONSE, id, bytesWritten);
    HeaderThenBody(b0, b1, buf[..], HeaderBytes(DOWNLOAD_RESPONSE, id, bytesWritten), FileBytes(info, data));
  }

  method PutFile(buf: array<byte>, info: FileInfo, data: seq<bv8>) returns (bytesWritten: nat)
    requires FitsFile(info, data) && buf.Length == MAX_PEER_MSG_SIZE
    modifies buf
    ensures bytesWritten == |FileBytes(info, data)|
    ensures Wrote(old(buf[..]), buf[..], HEADER_SIZE, FileBytes(info, data))
  {
    ghost var name, size, check := TextBytes(info.name), Bytes(info.size), Bytes(CheckWord(info.checksum));
    ghost var b0 := buf[..];
    bytesWritten := 0;
    PutText(buf, HEADER_SIZE + bytesWritten, info.name);
    bytesWritten := bytesWritten + |info.name| + 1;
    ghost var b1 := buf[..];
    PutWord(buf, HEADER_SIZE + bytesWritten, info.size);
    bytesWritten := bytesWritten + 4;
    ghost var b2 := buf[..];
    WroteTwo(b0, b1, b2, HEADER_SIZE, name, size);
    PutWord(buf, HEADER_SIZE + bytesWritten, CheckWord(info.checksum));
    bytesWritten := bytesWritten + 4;
    ghost var b3 := buf[..];
    WroteTwo(b0, b2, b3, HEADER_SIZE, name + size, check);
    PutRaw(buf, HEADER_SIZE + bytesWritten, data);
    bytesWritten := bytesWritten + info.size;
    WroteTwo(b0, b3, buf[..], HEADER_SIZE, name + size + check, Raw(data));
  }

  /** Parses an answer into the download buffer; any other kind of message is refused. */
  method ParseDownload(msg: seq<byte>, out: array<bv8>) returns (ok: bool, info: FileInfo)
    requires |msg| >= HEADER_SIZE && out.Length == MAX_FILE_SIZE
    requires HeaderOk(msg, DOWNLOAD_RESPONSE) ==> exists info, data :: CarriesFile(msg, info, data)
    modifies out
    ensures ok <==> HeaderOk(msg, DOWNLOAD_RESPONSE)
    ensures ok ==> info.size <= out.Length && CarriesFile(msg, info, out[..info.size])
    ensures ok ==> forall k :: info.size <= k < out.Length ==> out[k] == old(out[k])
    ensures !ok ==> out[..] == old(out[..])
  {
    info := FileInfo([], 0, 0);
    ok := ParseHeader(msg, DOWNLOAD_RESPONSE);
    if !ok {
      return;
    }
    ghost var sent, data :| CarriesFile(msg, sent, data);
    FileParts(msg, sent, data);
    var bytesRead := 0;
    var name := GetText(msg, HEADER_SIZE + bytesRead, sent.name);
    bytesRead := bytesRead + |name| + 1;
    var size := GetSizeWord(msg, HEADER_SIZE + bytesRead, sent.size);
    bytesRead := bytesRead + 4;
    var check := GetSizeWord(msg, HEADER_SIZE + bytesRead, CheckWord(sent.checksum));
    CheckRoundTrip(sent.checksum);
    bytesRead := bytesRead + 4;
    GetRaw(msg, HEADER_SIZE + bytesRead, size, out, data);
    info := FileInfo(name, size, WordCheck(check));
  }

  // -- The answering peer -------------------------------------------------------------------------

  // What leaves the peer: the first byte may have been counted up, if there is one.
  function Damaged(file: seq<bv8>, damage: bool): (sent: seq<bv8>)
    ensures |sent| == |file|
    ensures forall k :: 0 < k < |file| ==> sent[k] == file[k]
    ensures file != [] ==> sent[0] == if damage then file[0] + 1 else file[0]
  {
    if damage && file != [] then file[0 := file[0] + 1] else file
  }

  lemma OneMoreDiffers(b: bv8)
    ensures b + 1 != b
  {
  }

  /** The checksum gives the damage away, and nothing else: it matches exactly if the data sent is
      the file. */
  lemma DamageShows(file: seq<bv8>, damage: bool)
    ensures Crc(Damaged(file, damage)) == Crc(file) <==> !(damage && file != [])
  {
    Burst.ByteBurstDetected(Damaged(file, damage), file, 0);
    if damage && file != [] {
      OneMoreDiffers(file[0]);
      assert Damaged(file, damage)[0] != file[0];
    }
  }

  // The text sent with an error is `reason`.
  method BuildError(buf: array<byte>, id: int, reason: Text)
    requires buf.Length == MAX_PEER_MSG_SIZE && |reason| < 1024
    modifies buf
    ensures At(buf[..], 0, HeaderBytes(ERROR_RESPONSE, id, |reason| + 1) + TextBytes(reason))
  {
    ghost var b0 := buf[..];
    PutText(buf, HEADER_SIZE, reason);
    ghost var b1 := buf[..];
    BuildHeader(buf, ERROR_RESPONSE, id, |reason| + 1);
    HeaderThenBody(b0, b1, buf[..], HeaderBytes(ERROR_RESPONSE, id, |reason| + 1), TextBytes(reason));
  }

  method ReadFile(name: Text, file: seq<bv8>, data: array<bv8>) returns (info: FileInfo)
    requires |file| <= data.Length
    modifies data
    ensures info == FileInfo(name, |file|, Crc(file)) && data[..|file|] == file
  {
    var size, checksum := ChecksumFile(file);
    for i := 0 to size
      invariant forall k :: 0 <= k < i ==> data[k] == file[k]
    {
      data[i] := file[i];
    }
    info := FileInfo(name, size, checksum);
  }

  /** A peer answers a download request. `file` is what it holds under that name; the checksum is
      taken before the data may be damaged. */
  method AnswerDownload(name: Text, file: Option<seq<bv8>>, damage: bool, reason: Text, id: int,
                        data: array<bv8>, buf: array<byte>)
    requires data.Length == MAX_FILE_SIZE && buf.Length == MAX_PEER_MSG_SIZE
    requires 0 !in name && |reason| < 1024
    requires file.Some? ==> FitsMessage(name, |file.value|)
    modifies data, buf
    ensures |buf[..]| >= HEADER_SIZE
    ensures HeaderOk(buf[..], DOWNLOAD_RESPONSE) <==> file.Some?
    ensures file.Some? ==>
              CarriesFile(buf[..], FileInfo(name, |file.value|, Crc(file.value)), Damaged(file.value, damage))
  {
    if file.None? {
      BuildError(buf, id, reason);
      AtSplit(buf[..], 0, HeaderBytes(ERROR_RESPONSE, id, |reason| + 1), TextBytes(reason));
      HeaderHas(buf[..], ERROR_RESPONSE, id, |reason| + 1);
    } else {
      var info := ReadFile(name, file.value, data);
      if damage {
        data[0] := data[0] + 1;
      }
      var sent := data[..info.size];
      assert sent == Damaged(file.value, damage);
      var written := BuildDownload(buf, id, info, sent);
      AtSplit(buf[..], 0, HeaderBytes(DOWNLOAD_RESPONSE, id, written), FileBytes(info, sent));
      HeaderHas(buf[..], DOWNLOAD_RESPONSE, id, written);
    }
  }

  // -- The downloading peer -----------------------------------------------------------------------

  // What one attempt meets: whether the messages get through, what the peer holds under the name by
  // then, and whether it damages the data.
  datatype Attempt = Attempt(delivered: bool, file: Option<seq<bv8>>, damage: bool)

  predicate Good(a: Attempt) {
    a.delivered && a.file.Some? && !(a.damage && a.file.value != [])
  }

  predicate FitsAttempt(name: Text, a: Attempt) {
    a.file.Some? ==> FitsMessage(name, |a.file.value|)
  }

  /** One request: it fails if a message is lost or the peer does not hold the file, and otherwise
      brings what the peer sent into `bytes`. */
  method SendDownloadRequest(name: Text, a: Attempt, bytes: array<bv8>) returns (ok: bool, info: FileInfo)
    requires 0 !in name && FitsAttempt(name, a) && bytes.Length == MAX_FILE_SIZE
    modifies bytes
    ensures ok <==> a.delivered && a.file.Some?
    ensures ok ==> info == FileInfo(name, |a.file.value|, Crc(a.file.value)) && info.size <= bytes.Length
                   && bytes[..info.size] == Damaged(a.file.value, a.damage)
  {
    info := FileInfo([], 0, 0);
    if !a.delivered {
      ok := false;
      return;
    }
    var data := new bv8[MAX_FILE_SIZE];
    var buf := new byte[MAX_PEER_MSG_SIZE];
    AnswerDownload(name, a.file, a.damage, [], 0, data, buf);
    var msg := buf[..];
    ok, info := ParseDownload(msg, bytes);
    if ok {
      CarriesOneFile(msg, info, bytes[..info.size], FileInfo(name, |a.file.value|, Crc(a.file.value)),
                     Damaged(a.file.value, a.damage));
    }
  }

  // Attempt `q` (from 0) at peer `p` would bring the file.
  predicate GoodAt(world: seq<seq<Attempt>>, p: nat, q: nat) {
    p < |world| && q < |world[p]| && Good(world[p][q])
  }

  // No attempt before the one at peer `i`, number `j`, would.
  ghost predicate NoneBefore(world: seq<seq<Attempt>>, i: nat, j: nat) {
    forall p: nat, q: nat :: GoodAt(world, p, q) ==> i < p || (i == p && j <= q)
  }

  // Five attempts at each peer, every answer within the message size.
  predicate WorldOk(name: Text, world: seq<seq<Attempt>>) {
    forall p :: 0 <= p < |world| ==> AttemptsOk(name, world[p])
  }

  predicate AttemptsOk(name: Text, attempts: seq<Attempt>) {
    |attempts| == RETRY_ATTEMPTS_PER_PEER && forall q :: 0 <= q < |attempts| ==> FitsAttempt(name, attempts[q])
  }

  // How often each peer is asked when the loop ends at attempt number `tries` of `peer`: five times
  // before it, not at all after it.
  function Asked(n: nat, peer: nat, tries: nat): (asked: seq<nat>)
    ensures |asked| == n
    ensures forall p :: 0 <= p < n ==>
              asked[p] == if p < peer then RETRY_ATTEMPTS_PER_PEER else if p == peer then tries else 0
  {
    seq(n, p => if p < peer then RETRY_ATTEMPTS_PER_PEER else if p == peer then tries else 0)
  }

  /** End to end: the loop hands a file to the writer exactly if some attempt is delivered by a peer
      that holds the file and sends it undamaged; it stops at the first such attempt, and the bytes
      handed over are the bytes of that peer's file. A peer is asked at most 5 times. */
  method DownloadFile(name: Text, world: seq<seq<Attempt>>)
    returns (peer: nat, tries: nat, written: Option<seq<bv8>>, ghost asked: seq<nat>)
    requires 0 !in name && WorldOk(name, world)
    ensures written.Some? <==> exists p: nat, q: nat :: GoodAt(world, p, q)
    ensures written.Some? ==> 1 <= tries <= 5
                              && GoodAt(world, peer, tries - 1) && NoneBefore(world, peer, tries - 1)
                              && written.value == world[peer][tries - 1].file.value
    ensures written.None? ==> peer == |world|
    ensures asked == Asked(|world|, peer, tries)
    ensures forall p :: 0 <= p < |world| ==> asked[p] == if p < peer then 5 else if p == peer then tries else 0
  {
    var bytes := new bv8[MAX_FILE_SIZE];
    written := None;
    tries := 0;
    peer := 0;
    asked := Asked(|world|, 0, 0);
    while peer < |world|
      invariant peer <= |world| && written.None? && NoneBefore(world, peer, 0)
      invariant asked == Asked(|world|, peer, 0)
    {
      assert AttemptsOk(name, world[peer]);
      tries := 1;
      while tries < RETRY_ATTEMPTS_PER_PEER + 1
        invariant 1 <= tries <= RETRY_ATTEMPTS_PER_PEER + 1 && written.None? && NoneBefore(world, peer, tries - 1)
        invariant asked == Asked(|world|, peer, tries - 1)
      {
        asked := asked[peer := asked[peer] + 1];
        var good, file := TryDownload(name, world[peer][tries - 1], bytes);
        assert good <==> GoodAt(world, peer, tries - 1);
        if good {
          written := Some(file);
          return;
        }
        tries := tries + 1;
      }
      peer := peer + 1;
    }
  }

  // The body of the loop: one request and the test of its checksum.
  method TryDownload(name: Text, a: Attempt, bytes: array<bv8>) returns (good: bool, file: seq<bv8>)
    requires 0 !in name && FitsAttempt(name, a) && bytes.Length == MAX_FILE_SIZE
    modifies bytes
    ensures good <==> Good(a)
    ensures good ==> file == a.file.value
  {
    good, file := false, [];
    var ok, info := SendDownloadRequest(name, a, bytes);
    if ok {
      DamageShows(a.file.value, a.damage);
      var checksum := ChecksumBytes(info.size, bytes);
      if info.checksum == checksum {
        good, file := true, bytes[..info.size];
      }
    }
  }
}
