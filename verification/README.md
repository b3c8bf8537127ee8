# Verified models of a replicated bulletin board and a peer-to-peer file exchange

The repository holds two networked C programs that this project models and proves properties of.

**The bulletin board** (`project_2`). Servers keep articles in an array of 256 nodes chained by an index field `next`. A post goes to the end of the chain; a reply is spliced in right after its parent's most recent reply, or after the parent. A group of servers replicates the board by one of three protocols, moving whole databases over a byte codec.

- `ThreadOrder.dfy`, `Preorder.dfy`: the ordering law. Each reply hangs from an *anchor* (the parent's latest earlier reply, or the parent). The listing is the depth-first walk of the anchor forest that visits larger ids first; it is the plain preorder of the reply tree only under an exact condition.
- `Database.dfy`, `Board.dfy`: the database as a class over an array, proved against functions on its live part, and the laws of every reachable board: one chain, order, depths, titles, nothing reordered.
- `Operations.dfy`: everything a server does with its database depends on the live part alone.
- `MessageCodec.dfy`, `ReadCodec.dfy`, `Layout.dfy`, `BoardMessages.dfy`: the byte form of pushes, pull answers and read answers: where every field stands, exact size bounds, round trips, at most one database per message, and which reachable boards fit.
- `SequentialRuns.dfy`, `SequentialSends.dfy`: SEQUENTIAL as a transition system in which coordinator threads, pushes in flight, lost messages and restarts interleave freely; exactly which pushes a run sends; the handlers as runs.
- `Handlers.dfy`: the SEQUENTIAL and READ-YOUR-WRITE write handlers, each from start to end.
- `ReadYourWriteRuns.dfy`, `ReadYourWriteSends.dfy`: the same for READ-YOUR-WRITE with several writes in flight.
- `QuorumConfig.dfy`, `QuorumSync.dfy`, `QuorumRounds.dfy`, `QuorumHandlers.dfy`: quorum arithmetic and the counting loops, the synchronisation threads interleaving step by step, what an undisturbed round achieves, and the handlers as they really run.

**The file exchange** (`project_3`). A tracker keeps a table of peers and the files they share; peers download files from one another and check a CRC-32.

- `Folds.dfy`, `Crc32.dfy`, `Burst.dfy`: the reflected CRC-32 of clause 3.2.9 of IEEE 802.3 (sample code in section 8 of RFC 1952). The table loop refines the bitwise division; two messages of one length collide exactly if their difference leaves no remainder; every burst of up to 32 bits shows, and a 33-bit one need not.
- `Download.dfy`: the answer's codec, the peer that may damage the first byte after taking the checksum, and the retry loop, end to end.
- `Tracker.dfy`, `TrackerRuns.dfy`: the slot table with its updates and queries, and runs with a sweeper that reads its clock before it takes the lock.

`CTypes.dfy` holds bytes, C strings and subsequences. Functions locked by one mutex are single steps. Choices the programs leave to chance or to the network are parameters or nondeterministic steps: which messages get through, which data are damaged, message ids, clock readings, and what dead array slots hold.

## What turned out not to hold

Each of these is the code's behaviour, shown by a lemma or a contract that also says exactly when it happens or names one that does.

- The listing is not the reply tree's preorder in general (`NotAlwaysPreorder`, and `ReadNotPreorder` for a board of four writes); `ListingIsPreorder` says when it is.
- A client receives every answer into 4096 bytes, whatever its size, so a read succeeds only on small boards. `ReadRemotely` gives the exact condition; `ReadOverruns` says which boards of posts break it, and `SmallBoardsOverrun` gives two, four long posts and 256 one-letter ones.
- In SEQUENTIAL a replica's version can fall when two pushes cross, because a restore compares no versions (`CrossedPushesGoBack`); `GoesBackExactly` says when.
- In READ-YOUR-WRITE a successful post is never pushed to the last server, since the loop runs over servers 0 to n-2; `LastServerMissesPost` says when that server is up to date all the same. A post forwarded to the coordinator is answered with success even if it failed (`ReadYourWritePostVia`).
- With two posts in flight READ-YOUR-WRITE loses writes answered with success, because a post's push also overwrites the coordinator (`SuccessLost`). A version falls exactly under the condition of `ReadYourWriteRuns.FallsExactly`, and an article vanishes exactly under that of `ReadYourWriteRuns.LostExactly`.
- In QUORUM a write is stored only where it arrives and is always answered with success, because `from_server` starts at 1 (`QuorumPost`, `QuorumReply`). A read is answered from the local database, so it shows what the newest pulled database holds exactly if that is the local one (`QuorumRead`, `ListedTells`), and it shows a write answered with success exactly at the server that took it or where the same article stood before (`ShownExactly`). `WrittenButNotRead` is a write and a read that both reach their quorum in an accepted configuration and miss each other.
- Equal versions do not imply equal contents in QUORUM (`PostsDiverge`). While all versions are equal, synchronisation changes nothing (`EqualVersionsStay`). Once all servers have completed a round of successful pulls they agree if and only if the databases of the highest version were equal at the start (`AgreeExactly`).
- Synchronisation loses stored articles. A restore keeps what the server holds exactly under the condition of `RestoreKeepsExactly`, and an article vanishes from the whole group exactly under that of `QuorumSync.LostExactly`; what is left once all servers have synchronised is what the servers of the highest version held (`HeldExactly`). One post between pull and restore is enough (`OnePostLost`), and so are independent posts at two servers with no race at all (`PostLostWithoutRace`). Versions can fall as well (`PostsLost`); `QuorumSync.FallsExactly` says when.
- `assumptions.h` calls 1000000 bytes the largest supported file, but the answer to a download must fit the same number of bytes together with its header, name and two words. `FitsExactly` gives the limit and shows that the largest file exceeds it; the limit is a precondition of the download model.
- A peer that announces itself again keeps the position recorded first; `PositionKept` says exactly when an announced position is on record.

## Model

| member | source | states |
|---|---|---|
| ThreadOrder.InsertOrderIsDfs | project_2/shared/database.c:147-169 | splicing each article in right after its anchor, in arrival order, lists exactly the depth-first walk of the anchor forest that visits larger ids first |
| ThreadOrder.InsertOrderListing | project_2/shared/database.c:147-173 | the listing is a permutation: every article once |
| ThreadOrder.InsertOrderPrefix | project_2/shared/database.c:157-173 | the listing of the first m articles is the full listing with the later ones left out |
| ThreadOrder.ParentFirst | project_2/shared/database.c:147-169 | every parent is listed before its replies |
| ThreadOrder.SiblingsInArrivalOrder | project_2/shared/database.c:147-169 | articles with one parent are listed in arrival order |
| ThreadOrder.ThreadsContiguous | project_2/shared/database.c:40-51 | each thread is one contiguous block and the blocks stand in the order the roots were posted |
| Preorder.ThreadIsPreorder | project_2/shared/database.c:147-169 | a thread is listed in preorder if and only if each of its replies with a first child and a next sibling got the child after the sibling |
| Preorder.ListingIsPreorder | project_2/shared/database.c:147-169 | the same for the whole board |
| Preorder.NotAlwaysPreorder | project_2/shared/database.c:147-169 | four articles whose listing is not the preorder of their reply tree |
| Board.ReadNotPreorder | project_2/shared/database.c:76-83 | a run of four writes after which a read is not in preorder |
| Database.ArticleDatabase.constructor | project_2/shared/database.c:7 | the static database starts with version 0 and no articles, whatever the slots hold |
| Database.ArticleDatabase.Post | project_2/shared/database.c:12-63 | the in-place search and append yields the chain with a new last article, or reports a full database and changes nothing |
| Database.ArticleDatabase.FindSlot | project_2/shared/database.c:118-125 | the first live slot that holds the id |
| Database.ArticleDatabase.LatestReplySlot | project_2/shared/database.c:148-155 | the last live slot that holds a reply to the parent |
| Database.ArticleDatabase.Insert | project_2/shared/database.c:157-173 | relinking splices the article in after the anchor slot |
| Database.ArticleDatabase.Reply | project_2/shared/database.c:93-184 | the reply lands after its anchor with depth and title derived from the parent; full and unknown-id errors change nothing |
| Database.ArticleDatabase.Read | project_2/shared/database.c:66-90 | following `next` from slot 0 copies out every live article, whole and unchanged, exactly in the order of the law |
| Database.ArticleDatabase.FollowChain | project_2/shared/database.c:77-83 | the same walk for any chain |
| Database.ArticleDatabase.Choose | project_2/shared/database.c:187-224 | the article in the first live slot with the id, whole and unchanged, or an error exactly if no slot has it |
| Database.ArticleDatabase.Backup | project_2/shared/database.c:227-240 | copies version, count and all slots |
| Database.ArticleDatabase.Restore | project_2/shared/database.c:243-256 | overwrites everything without comparing versions |
| Database.WriteAlike | project_2/shared/database.c:41-51 | databases equal on their live slots, with anything beyond, answer every sequence of writes alike and stay equal |
| Operations.Perform | project_2/shared/database.c:12-256 | every operation, reads, chooses and restores included, answers and leaves what the live part alone determines |
| Operations.OperateAlike | project_2/shared/database.c:243-256 | databases equal on their live slots give the same answers to every common sequence of posts, replies, reads, chooses and restores and stay equal |
| Board.RunSound | project_2/shared/database.c:12-184 | after any writes the version counts the articles, the links form the one chain of the law, and depths and titles follow the reply tree |
| Board.WriteOutcome | project_2/shared/database.c:21-27 | exactly when a write is stored, refused as full, or refused as a reply to no article, and what each outcome changes |
| Board.ReadOrder | project_2/shared/database.c:76-83 | in every reachable database a read returns the anchor walk, thread by thread, and it is preorder under the exact condition |
| Board.ReadShowsAll | project_2/shared/database.c:76-83 | a read shows every article once, parents before replies, siblings in arrival order |
| Board.TitleFits | project_2/shared/database.c:134-145 | depth is the number of steps to the root, and the title fits its array if and only if the root's title leaves four bytes per step and one for the NUL |
| Board.EarlierRead | project_2/shared/database.c:157-173 | no write reorders: an earlier read is a later one with newer articles left out |
| Board.StoredFields | project_2/shared/database.c:32-38 | a stored write adds one article with the author and contents asked for, a post's title and no parent, or a reply's parent and the parent's title behind "RE: "; all older articles stay |
| Board.RunHolds | project_2/shared/database.c:134-145 | after any run every article is, field by field, what the write asked for that found as many articles as its number |
| MessageCodec.SizeBound | project_2/shared/msg.h:10 | a database message never exceeds the maximum, and reaches it exactly if all 256 slots are live and every text fills its array |
| MessageCodec.BuildHeader | project_2/shared/msg.c:48-64 | magic number, kind, id and size, and nothing else in the buffer changes |
| MessageCodec.ParseHeader | project_2/shared/msg.c:67-83 | a message is accepted exactly if its magic number and kind are right |
| MessageCodec.ReadHeader | project_2/shared/msg.c:67-83 | the first four bytes are tested, and kind, id and size are read back from the words behind them |
| MessageCodec.HeaderHas | project_2/shared/msg.c:48-83 | kind, id and size of a built header read back as they were |
| MessageCodec.IntRoundTrip | project_2/shared/msg.c:551-566 | 32-bit values including -1 survive being sent as unsigned words |
| MessageCodec.BuildDb | project_2/shared/msg.c:546-596 | the buffer holds header, version, count and every live node; the cursor is the body's length |
| MessageCodec.ParseDb | project_2/shared/msg.c:599-661 | parsing yields a database the message carries, ends where the body ends, and leaves later slots and refused targets alone |
| MessageCodec.CarriesOne | project_2/shared/msg.c:599-661 | a message carries at most one database |
| MessageCodec.BuiltIsReadable | project_2/shared/msg.c:733-795 | what is built as push or pull answer is accepted under that kind and carries the database |
| MessageCodec.Push | project_2/server/msg_handler.c:160-172 | build, send, parse and restore make the replica's live database equal to the snapshot, whatever the replica held |
| MessageCodec.Pull | project_2/server/msg_handler.c:185-200 | backup, build, send and parse give the asking server the live database of the one asked |
| Layout.HeaderPlace | project_2/shared/msg.c:48-64 | a header is the bytes 12 AB 34 CD and kind, id and size, most significant byte first |
| Layout.DbPlace | project_2/shared/msg.c:546-596 | where every field of a database message stands, byte by byte: version at 16, count at 20, then link, id, parent, depth, author, title and contents of each node |
| Layout.BuildPush | project_2/shared/msg.c:546-596 | a push is such a message of kind 0x6000 |
| Layout.BuildPullAnswer | project_2/shared/msg.c:681-731 | a pull answer is such a message of kind 0x7001 |
| BoardMessages.ReachableFits | project_2/shared/article.h:4-15 | a reachable board can be sent if and only if its authors, contents and threads' first titles fit, four bytes allowed per level |
| ReadCodec.ReadFits | project_2/server/protocol_sequential.c:17 | the answer to a read always fits the buffer the server builds it in |
| ReadCodec.BuildRead | project_2/shared/msg.c:244-286 | the buffer is an answer of the right kind whose size word and body are those of the articles in order |
| Layout.ReadPlace | project_2/shared/msg.c:244-286 | where every field of an answer to a read stands: count at 16, then id, parent, depth, author, title and contents of each article |
| ReadCodec.ParseRead | project_2/shared/msg.c:289-343 | parsing yields the articles the message carries and ends where the body ends |
| ReadCodec.CarriesOneList | project_2/shared/msg.c:289-343 | a message carries at most one list of articles |
| ReadCodec.ReadRemotely | project_2/shared/net.c:112-135 | the answer stays inside the client's 4096 bytes if and only if it is at most that long, and then the client ends up with exactly the listing of the server's database |
| ReadCodec.Receive | project_2/shared/net.c:39-58 | header first, then as many bytes as its size word says; they stay inside exactly if the buffer is long enough |
| BoardMessages.ReadOverruns | project_2/shared/net.c:115 | legal boards whose listing overruns the client's buffer, exactly from which number and length of posts on |
| BoardMessages.SmallBoardsOverrun | project_2/shared/net.c:115 | four posts of the greatest length and a full board of one-letter posts do |
| SequentialRuns.RunKeeps | project_2/server/protocol_sequential.c:26-54 | in every interleaving each server, snapshot and push in flight is the replay of a prefix of the stored writes, its version the prefix's length |
| SequentialRuns.ReadsAgree | project_2/server/protocol_sequential.c:79-94 | of any two reads, at any servers and any times, one is a subsequence of the other, and equal versions mean equal databases |
| SequentialRuns.CoordinatorLeads | project_2/server/protocol_sequential.c:105-147 | whatever any server showed, the coordinator shows from then on, in the same order |
| SequentialRuns.DeliveryShowsWrite | project_2/server/msg_handler.c:160-172 | every push in flight, whatever has become of its thread, shows when delivered the article its thread's write was stored as, and leaves the replica up to date exactly if nothing was stored since its snapshot |
| SequentialRuns.OneAtATimeNeverBack | project_2/server/msg_handler.c:160-182 | if each write finds the group quiet, only a restart lowers a version |
| SequentialRuns.GoesBackExactly | project_2/server/msg_handler.c:171-172 | a version falls exactly if an older push is restored or a non-empty server restarts |
| SequentialRuns.CrossedPushesGoBack | project_2/server/msg_handler.c:171-172 | a run of two posts whose pushes cross lowers a version |
| SequentialSends.SentExactly | project_2/server/protocol_sequential.c:46-53 | in every run a push has been sent if and only if its thread has come to that server, with the thread's own write and snapshot |
| SequentialSends.SentToAll | project_2/server/protocol_sequential.c:50-53 | a thread that comes to its end has sent its snapshot to every server from 1 to n-1, whichever pushes failed, and to nobody else |
| SequentialSends.NothingElseSent | project_2/server/protocol_sequential.c:46-53 | no push goes to the coordinator, and each carries the snapshot of the thread that sent it |
| SequentialSends.ReplyWasDelivered | project_2/server/protocol_sequential.c:139-147 | a reply's thread comes to its end only if every other server has held its snapshot |
| SequentialSends.GivesUpAtFirst | project_2/server/protocol_sequential.c:139-147 | only replies give up: every server before the one named has held the snapshot, that one did not acknowledge in time, and none behind it is ever sent to |
| SequentialSends.OneServerChanges | project_2/server/protocol_sequential.c:29-53 | a step changes one server at most, the coordinator only by a client's write; a snapshot is the coordinator's database when it is taken |
| SequentialSends.PostIsRun | project_2/server/protocol_sequential.c:26-54 | the post handler, with any fate for each push, is a run of the transition system that ends in the same databases and a finished thread |
| SequentialSends.ReplyIsRun | project_2/server/protocol_sequential.c:105-148 | so is the reply handler; its second answer says that the thread gave up |
| Handlers.Group.DbPush | project_2/shared/net.c:193-213 | a push that is not lost replaces the target's database; it succeeds only if the answer comes back |
| Handlers.Group.Store | project_2/server/protocol_sequential.c:29 | the coordinator's write, which keeps every replica a replay of a prefix |
| Handlers.Group.PushTo | project_2/server/protocol_sequential.c:139-147 | pushes reach exactly the targets up to the first failure whose request got through |
| Handlers.Group.SequentialPost | project_2/server/protocol_sequential.c:26-54 | success says only that the coordinator stored the post; every other server is pushed to whatever happens |
| Handlers.Group.SequentialReply | project_2/server/protocol_sequential.c:105-148 | the same for a reply, which stops at the first failed push and then sends a second, failing answer |
| Handlers.Group.SequentialVia | project_2/server/protocol_sequential.c:149-163 | success at another server exactly if the coordinator stored the write and its answer came back |
| Handlers.Group.ReadYourWriteReply | project_2/server/protocol_readyourwrite.c:96-131 | success exactly if stored and every push acknowledged, and then every server holds the reply; no version falls |
| Handlers.Group.ReadYourWritePost | project_2/server/protocol_readyourwrite.c:26-49 | success means that every server but the last holds the post; the last one is untouched |
| Handlers.Group.ReadYourWriteReplyVia | project_2/server/protocol_readyourwrite.c:132-142 | success at another server exactly if the coordinator's answer was success and came back |
| Handlers.Group.ReadYourWritePostVia | project_2/server/protocol_readyourwrite.c:50-59 | a forwarded post is answered with success whether or not it was stored |
| Handlers.LastServerMissesPost | project_2/server/protocol_readyourwrite.c:40 | after a stored post the last server is up to date exactly if it is the coordinator |
| ReadYourWriteRuns.RunSoundness | project_2/server/protocol_readyourwrite.c:26-49 | in every interleaving every server's database keeps the board's invariant |
| ReadYourWriteRuns.ShowsPast | project_2/server/protocol_readyourwrite.c:36-48 | whatever a server, a snapshot or a push holds is a database the coordinator held at that time or before |
| ReadYourWriteRuns.SuccessWasDelivered | project_2/server/protocol_readyourwrite.c:118-142 | a reply answered with success has been held by every server 1 to n-1 at some time, a post by every server 0 to n-2 |
| ReadYourWriteSends.SentExactly | project_2/server/protocol_readyourwrite.c:36-48 | in every run a push has been sent if and only if its thread has come to that server, with the thread's own write and snapshot |
| ReadYourWriteSends.SentToAll | project_2/server/protocol_readyourwrite.c:122-130 | a thread that succeeds has sent its snapshot to exactly the servers 1 to n-1 for a reply and 0 to n-2 for a post |
| ReadYourWriteSends.NothingElseSent | project_2/server/protocol_readyourwrite.c:40-48 | no reply is ever pushed to the coordinator and no post to the last server |
| ReadYourWriteSends.GivesUpAtFirst | project_2/server/protocol_readyourwrite.c:40-48 | a thread that gives up has had every target before the one named hold its snapshot and never sends to a later one |
| ReadYourWriteSends.OneServerChanges | project_2/server/protocol_readyourwrite.c:26-48 | a step changes one server at most; a snapshot is the coordinator's database when it is taken |
| ReadYourWriteSends.ReplyIsRun | project_2/server/protocol_readyourwrite.c:96-131 | the reply handler, with any fate for each push, is a run of the transition system that ends in the same databases, and answers with success exactly if its thread succeeds |
| ReadYourWriteSends.PostIsRun | project_2/server/protocol_readyourwrite.c:26-49 | so is the post handler |
| ReadYourWriteRuns.FallsExactly | project_2/server/protocol_readyourwrite.c:40-42 | a version falls exactly if an older push is restored or a non-empty server restarts, and the coordinator's only by a post's push |
| ReadYourWriteRuns.LostExactly | project_2/server/msg_handler.c:171-172 | an article leaves the whole group exactly if its only holder restores a push without it or restarts |
| ReadYourWriteRuns.OneAtATimeNeverBack | project_2/server/protocol_readyourwrite.c:26-131 | if every write finds the group quiet, only restarts lower a version |
| ReadYourWriteRuns.SuccessLost | project_2/server/protocol_readyourwrite.c:36-48 | a run in which a post is answered with success and then held by no server |
| QuorumConfig.Validate | project_2/server/file.c:161-184 | accepts exactly 1 <= Nr, Nw <= N with Nr + Nw > N and Nw > N/2, and exactly which check refuses what |
| QuorumHandlers.QuorumGroup.WriteLoop | project_2/server/protocol_quorum.c:48-58 | success exactly if Nw of the servers asked in turn answered; a server stores the write exactly if it is asked and the request gets through |
| QuorumHandlers.QuorumGroup.FromServer | project_2/server/protocol_quorum.c:36-43 | the search for the sender finds every request to be from a server |
| QuorumHandlers.QuorumGroup.StoreOrForward | project_2/server/protocol_quorum.c:45-64 | with the flag set the write is stored here alone and succeeds; without it the write loop decides |
| QuorumConfig.ReadLoop | project_2/server/protocol_quorum.c:95-110 | success exactly if Nr of the servers asked in turn answered, and the first database of the highest version among what came in is kept |
| QuorumConfig.CountedRising | project_2/server/protocol_quorum.c:48-58 | only servers that answered are counted, each once |
| QuorumConfig.CountedExactly | project_2/server/protocol_quorum.c:48-58 | the first server is always asked and another one exactly if fewer than needed have answered before; those asked that answer are counted, and the number is reached exactly if that many servers would answer |
| QuorumConfig.MeetIff | project_2/server/file.c:164-176 | two counts always share a server if and only if together they exceed N |
| QuorumConfig.AcceptedIffSafe | project_2/server/file.c:161-184 | a configuration is accepted if and only if it is reachable and every read meets every write and every two writes meet |
| QuorumSync.SyncRaises | project_2/server/protocol_quorum.c:207-222 | without new writes, in any interleaving: no version falls, the highest stays, no contents are invented, and a server that completed a round of successful pulls holds the highest version |
| QuorumSync.SyncAgrees | project_2/server/protocol_quorum.c:207-222 | such servers agree on the whole database if the highest version started out unambiguous |
| QuorumSync.TopStays | project_2/server/protocol_quorum.c:215 | a server that starts at the highest version keeps its database |
| QuorumSync.AgreeExactly | project_2/server/protocol_quorum.c:207-222 | when all servers have completed such a round, all agree if and only if the databases of the highest version were equal at the start |
| QuorumSync.EqualVersionsStay | project_2/server/protocol_quorum.c:215-218 | at equal versions synchronisation never changes anything |
| QuorumSync.PostsDiverge | project_2/server/protocol_quorum.c:60-64 | two posts to two servers give equal versions with different contents |
| QuorumSync.FallsExactly | project_2/server/protocol_quorum.c:213-218 | a restore lowers a version if and only if what it takes over is newer than the backup, but by less than the number of writes stored since the backup |
| QuorumSync.FallsOnlyAtRestore | project_2/server/protocol_quorum.c:217 | no other step lowers a version |
| QuorumRounds.RoundCompletes | project_2/server/protocol_quorum.c:207-222 | from every run, n undisturbed turns of backup, pull and compare complete a round: the server holds the newest database of the group, its own if none is newer, and no other database changes |
| QuorumRounds.FailedPullTakesNothing | project_2/server/protocol_quorum.c:213-218 | after a failed pull the database received earlier is compared again and in no run taken over |
| QuorumSync.PostsLost | project_2/server/protocol_quorum.c:213-218 | a run in which two stored posts are wiped out and a version falls |
| QuorumSync.RestoreKeepsExactly | project_2/server/protocol_quorum.c:213-218 | a restore keeps every article the server holds if and only if nothing newer than the backup was received or what was received extends what the server holds |
| QuorumSync.LostExactly | project_2/server/protocol_quorum.c:215-218 | an article is gone from the whole group after a step if and only if the step restores something without it at the only server that held it |
| QuorumSync.HeldExactly | project_2/server/protocol_quorum.c:207-222 | once all servers have synchronised without new writes, the group holds an article if and only if a server of the highest version held it at the start |
| QuorumSync.OnePostLost | project_2/server/protocol_quorum.c:213-218 | a run in which one stored post is wiped out and no version falls |
| QuorumSync.PostLostWithoutRace | project_2/server/protocol_quorum.c:215-218 | the same with no write between backup and restore |
| QuorumSync.RunSoundness | project_2/server/protocol_quorum.c:198-223 | in every run with writes every database held or received keeps the board's invariant, so it can be read |
| QuorumHandlers.QuorumGroup.QuorumPost | project_2/server/protocol_quorum.c:21-81 | a post is stored at this server only and answered with success, whoever sent it and whichever servers would answer; it is lost exactly if the database is full |
| QuorumHandlers.QuorumGroup.QuorumReply | project_2/server/protocol_quorum.c:130-196 | the same for a reply, lost also if the parent does not exist |
| QuorumHandlers.QuorumRead | project_2/server/protocol_quorum.c:83-128 | answered exactly if Nr pulls came in, with the local listing, which is that of the newest database pulled exactly if the two are equal |
| QuorumHandlers.ListedTells | project_2/server/protocol_quorum.c:115-116 | sound databases list the same if and only if they are the same |
| QuorumHandlers.ShownExactly | project_2/server/protocol_quorum.c:60-64 | a stored post or reply is shown by a read at a server if and only if that server took it or showed that very article before |
| QuorumHandlers.WrittenButNotRead | project_2/server/protocol_quorum.c:115 | with an accepted configuration a write and a read both succeed and the read, having pulled the article, shows nothing |
| Crc32.ShiftInjective | project_3/peer/checksum.c:76-86 | the division step is injective |
| Crc32.TableIsEightShifts | project_3/peer/checksum.c:10-55 | each of the 256 constants is its index after eight division steps by 0xEDB88320 |
| Crc32.TableStepRefines | project_3/peer/checksum.c:81 | one turn of the loop, sign-extended bytes included, is eight bit steps |
| Crc32.TableRefines | project_3/peer/checksum.c:79-82 | the table-driven loop leaves the register exactly where bit-by-bit division leaves it, for every message and start value |
| Crc32.CheckValue | project_3/peer/checksum.c:76-86 | the checksum of the digits 1 to 9 is the standard's check value 0xCBF43926, and that of nothing is 0 |
| Crc32.TableStepInjective | project_3/peer/checksum.c:81 | for any byte the loop's step is injective in the running checksum |
| Crc32.ChecksumBytes | project_3/peer/checksum.c:76-86 | the loop over a buffer computes the standard's CRC |
| Crc32.ChecksumFile | project_3/peer/checksum.c:107-118 | the loop over a file computes the size and the same CRC |
| Burst.DifferenceEvolves | project_3/peer/checksum.c:81 | the difference of two checksums depends on the differences of the messages alone |
| Burst.CollideIffNoRemainder | project_3/peer/checksum.c:76-86 | two messages of one length collide if and only if their difference leaves no remainder |
| Burst.BurstDetected | project_3/peer/checksum.c:76-86 | messages that differ only inside 32 consecutive bits, at any position and of any length, collide only if equal |
| Burst.ByteBurstDetected | project_3/peer/checksum.c:76-86 | the same for four consecutive bytes |
| Burst.LongerBurstMissed | project_3/peer/checksum.c:76-86 | a 33-bit change that goes unseen in every message, anywhere |
| Download.FitsExactly | project_3/shared/assumptions.h:4-5 | a file can be sent exactly if name and data take at most 999975 bytes, so the largest supported file cannot |
| Download.BuildDownload | project_3/shared/msg.c:661-686 | the buffer holds header, name, size, checksum and data |
| Layout.FilePlace | project_3/shared/msg.c:661-686 | where every field of a download answer stands: name at 16, then size, checksum and the file's bytes in order |
| Download.ParseDownload | project_3/shared/msg.c:688-726 | parsing yields the file the message carries; any other kind is refused and the data buffer left alone |
| Download.CarriesOneFile | project_3/shared/msg.c:688-726 | a message carries at most one file |
| Download.DamageShows | project_3/peer/connection_handler.c:70-73 | the checksum matches the data sent if and only if they were not damaged; an empty file cannot be |
| Download.ReadFile | project_3/peer/file.c:40-77 | name, size and CRC of the file, and its bytes in the buffer |
| Download.AnswerDownload | project_3/peer/connection_handler.c:59-78 | the answer carries the file's CRC with the possibly damaged bytes, or is an error if the file is missing |
| Download.SendDownloadRequest | project_3/peer/send.c:220-245 | fails exactly if a message is lost or the file is missing, and otherwise brings what the peer sent |
| Download.TryDownload | project_3/peer/ui.c:160-174 | an attempt counts exactly if it was delivered by a peer that holds the file and sent it undamaged |
| Download.DownloadFile | project_3/peer/ui.c:152-177 | the loop succeeds exactly if some attempt is good, stops at the first, and hands over that peer's file byte for byte; how often each peer is asked, at most five times in every run |
| Tracker.PeerTable.constructor | project_3/server/database.c:64-89 | every slot is cleared and the count is zero |
| Tracker.PeerTable.AddPeer | project_3/server/database.c:92-153 | a known peer's files and time are replaced, a new one takes the first free slot with its files and time, and nothing else changes; it fails exactly if the peer is new and all 64 slots are taken; addresses stay distinct and the count right |
| Tracker.AnnouncedExactly | project_3/server/database.c:100-143 | after a successful announcement one slot and no other is the peer's; it holds the announced files and the time, and all other slots are as they were |
| Tracker.AnnouncedIsFound | project_3/server/database.c:115-116 | so the peer is among the hosts of a name if and only if a file just announced has it, and no other host comes or goes |
| Tracker.PositionKept | project_3/server/database.c:114-117 | an announced position is on record exactly if the peer was new and found a slot, or the same position was on record before |
| Tracker.PeerTable.KeepAlive | project_3/server/database.c:156-189 | only the known peer's time changes; it fails exactly if the peer is unknown |
| Tracker.PeerTable.Sweep | project_3/server/database.c:44-51 | clears exactly the slots more than five seconds old by the clock read, and counts what is left |
| Tracker.PeerTable.FindFile | project_3/server/database.c:192-223 | the active hosts of the name in slot order, no host twice |
| Tracker.PeerTable.DiscoverFiles | project_3/server/database.c:226-270 | each file returned is the first of its name in the lowest active slot that hosts it, in the order of slots; one file for every name hosted, the names pairwise distinct |
| Tracker.AddNewNames | project_3/server/database.c:242-261 | the middle loop takes over the first file of each new name |
| Tracker.AlreadyOut | project_3/server/database.c:247-254 | the duplicate test |
| Tracker.CountSlots | project_3/server/database.c:15 | the count is the number of active slots |
| Tracker.HostSlotsExact | project_3/server/database.c:200-216 | the slots found are exactly those of active peers that host the name, in order |
| Tracker.FirstsAreFirst | project_3/server/database.c:247-260 | each file kept is the first of its name, in the order of the list |
| Tracker.QueriesAgree | project_3/server/database.c:192-270 | a name has hosts if and only if it is discovered, if and only if an active peer hosts it |
| TrackerRuns.RunKeeps | project_3/server/database.c:31-189 | in every run the active slots hold different peers and no time is ahead of the clock |
| TrackerRuns.NeverEvicted | project_3/server/database.c:38-51 | a peer that is never out of touch for more than five seconds keeps its slot, however old the sweeper's readings are |
| TrackerRuns.SweptIff | project_3/server/database.c:46 | a sweep keeps a peer exactly if its clock reading is at most five seconds past the last contact |
| TrackerRuns.SilentPeerLeaves | project_3/server/database.c:38-51 | a peer silent since a contact is still known if and only if no sweep so far had last read the clock more than five seconds past that contact |

## Left out

- Database.ArticleDatabase.Post: texts are unbounded; what a text longer than its array would overwrite is not modelled. `Board.TitleFits` and the codec's `Fits` say exactly what fits.
- MessageCodec.ParseDb: messages with a good header and a malformed body are outside the precondition, since the code would read past the end of the buffer.
- Download.ParseDownload: the same for malformed download answers.
- Download.ReadFile: the file does not change between the pass for the checksum and the pass for the data.
- Download.AnswerDownload: the fixed text of the error answer is a parameter.
- Download.DownloadFile: whether the writer then succeeds in storing the file; the code ignores its result.
- QuorumConfig.ReadLoop: the received database before the first successful pull is uninitialised memory in the code; here it is below every version.
- QuorumSync.SyncRaises: the same for the synchronisation thread, which here compares nothing before its first successful pull.
- Handlers.Group.ReadYourWriteReply: writes are one at a time here; `ReadYourWriteRuns` lets them interleave, and `ReadYourWriteSends` shows that the two forms agree.
- ReadCodec.ReadRemotely: what an answer longer than the client's buffer overwrites.
- Coordinator crash and recovery: the code has none. Replicas may restart empty in `SequentialRuns`.
- Sockets, timeouts, connection setup, mutex failures, and the response buffers that request threads share and that one file declares smaller than the others.
- Parsing of configuration files, commands and addresses; screens, logs and command lines.
- The codecs of the small request messages, and of the tracker's list, find and ping messages, which repeat the word and text steps proved here; their latitudes and longitudes pass through 32-bit integers.
- Sorting peers by measured load and distance, the load counter, and the first project of the repository.
