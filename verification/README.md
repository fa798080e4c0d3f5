# lidis in Dafny

lidis is a key-value server written in C. This project models its core and proves what the
rest of the server relies on. Four parts meet in one abstract store, a finite map from C
strings to C strings in which SET inserts an absent key, MOD replaces a present one and DEL
removes a present one:

* the index engines: a red-black tree with a sentinel and parent pointers, a skip list of 32
  levels, and a chained hash table;
* the slab allocator under them;
* framing and persistence: the KVSP wire format, the receive loop, the append-only log, the
  dump, recovery after a crash, and the SAVE command;
* replication: the agent that watches the master's traffic, its ring buffer, and the join of a
  slave.

Code that changes things in place is modelled as such: nodes, slabs, buffers and tables are
objects and arrays, loops are loops, and each method is proved against a specification. The
shape of a linked structure is kept in ghost fields (a map from each object to its fields, and
a tree, chains, levels or lists), and the proofs about shapes are lemmas on those values.

## Files

| file | content |
|---|---|
| `bytes.dfy`, `kv.dfy`, `pairs.dfy` | bytes and `strcmp`, the abstract store, association lists |
| `rb_shape.dfy`, `rb_balance.dfy`, `rb_tree.dfy` | the red-black tree: memory shape with a focus, balance and order, the code |
| `skip_levels.dfy`, `skip_list.dfy` | the skip list: its levels in memory, the code |
| `hash_chains.dfy`, `hash_table.dfy` | the hash table: its chains in memory, the code |
| `commands.dfy`, `meeting.dfy` | what commands mean, idempotence of the log; the same commands on two stores |
| `database.dfy`, `mirror.dfy` | the dispatch to the engines; the same operations on all three |
| `kvsp.dfy`, `kvsp_exact.dfy`, `kvsp_code.dfy` | the wire format: verdicts, tokens, frames; exactly which bytes have which verdict; the code on buffers |
| `wire_text.dfy` | the protocol in plain text: command words, answers, literal streams, what the agent forwards |
| `framing.dfy`, `server_reader.dfy`, `receive_loop.dfy` | cutting a stream into frames; the command in a frame; a connection's receive loop on a server |
| `persistence.dfy`, `recovery.dfy`, `dump.dfy`, `traversal.dfy`, `server.dfy` | reading a file back, torn logs, dumps, the traversals, the server with its log |
| `save_control.dfy`, `durability.dfy` | the SAVE command and its background child; a run with SAVEs and then a crash |
| `ring.dfy`, `agent.dfy` | the ring buffer, the agent |
| `several.dfy`, `traffic.dfy` | several connections on one server; what the server and what the agent make of the same chunks |
| `convergence.dfy`, `diverging_runs.dfy` | master, agent and slave; runs in which the slave differs for good |
| `slab_lists.dfy`, `slab_board.dfy`, `slab_blocks.dfy`, `slab_allocator.dfy` | slab lists, all lists together, blocks and free lists, the allocator |

## Main results

* `RbTree.RedBlackTree.Delete` and `Insert`: search order, black root, no red node with a red
  child, equal black heights, every parent link and the black sentinel survive; the map loses
  or gains exactly one binding. `Search` visits at most 2 log2(n + 1) nodes.
* All three engines refine the same map. `Mirror.SendAll`: after any operations sent to all three,
  they hold the same map and gave the same answers, but for one family of operations on a missing
  key, which it names exactly.
* `WireText`: each of the fifteen command words is fixed by its text; the answer to every command is
  fixed by what the key holds after any run, and a client reads what it wrote
  (`ReadsWhatWasWritten`); the agent forwards a command exactly if its word is one of twelve, which
  are those that can change a store.
* `KvspExact.BadExactly` and `BodyExactly`: once the head is whole, a prefix is called malformed
  exactly if nothing can make a frame of it, and a body is split exactly if it is a notation of
  tokens.
* `ReceiveLoop.Serve` and `Several.ServeAll` with `Server.Server`: for any streams of bytes in KVSP
  on any number of connections, and however their chunks are cut and interleaved, the store becomes
  what the streams' commands make of it and the log grows by exactly the successful writes among
  them; a restart from whole files keeps that.
* `Server.CrashRecovery`: a dump taken at any time, and then the log cut off at any byte, bring
  back exactly the store after the last whole frame, as long as the log reaches back to the
  dump. Otherwise each single key is as in the dump or as in the log; the whole store is the log's
  exactly if each key of the dump is missing there, or has the log's value, or is changed or
  removed by the log, and it is the dump's under a condition of the same kind.
  `Commands.ShortLogMixes` shows a store that never existed. The proof needs that only successful
  writes are logged (`Commands.FailedWritesMustNotBeLogged`).
* `Durability.AcknowledgedSurvives`: in a run with SAVEs and a crash, nothing that was executed
  before the last acknowledged SAVE is lost, under conditions that `CrashAfterRun` and
  `SaveControl.Saver` state exactly.
* `Framing.ChunkingIndependence`: what a connection or the agent does depends on the bytes, not
  on how they were cut.
* `Convergence`, over every run and for any chunks on the master's connections: refused frames,
  frames that the master drops behind a refused one, frames of several connections mixed up in the
  agent's one buffer, handshakes of other slaves. `SettledExactly` says exactly when a slave for which
  nothing is under way has the master's store, key by key: it looks only at the commands in which
  what the slave executed and what the master executed differ, and at the common ones behind them.
  It has the master's store if both are the same (`SlaveConverges`).
* When the agent hears what the master executes (`Traffic.Heard`; at all times exactly if the traffic
  is `Orderly`, chunk by chunk, and so if clients take `Turns`), a slave in time always has the
  master's store after some prefix of its commands (`SlaveFollows`). With all sent, it is cut off
  exactly if a forwarded frame is refused, and has the master's store exactly if what it missed
  restores each key (`InTimeExactly`). `EarlyExactly` and `LateExactly` are the same for a slave that
  the agent learned of too early or too late, which the code does not prevent.
* `DivergingRuns` has a run for each way to fail: the agent forwards failed writes too; the accepting
  thread may lag behind; the agent forwards frames of which it has read only the first token; it
  forwards frames that the master drops with a connection; and it gives up when a second
  connection's chunk arrives in the middle of a frame.
* `SlabAllocator.Allocator.Malloc` and `Free` keep the partition of slabs and blocks over every
  run; a new slab is made exactly if no slab of the class has a free block, and one is given back
  exactly if it became empty beside another empty one; live blocks never overlap; a caller that writes only into its own blocks cannot disturb
  the allocator, whatever words, headers and records its bytes overlap.
* `SaveControl.Saver`: at most one child, and an idle server's dump covers every SAVE that was
  answered by OK, if and only if no SAVE was waiting when the last child ended and there was no
  socket for the next one (`DroppedSave` is such a run).

## Assumptions

* Allocation succeeds, and a fresh hash table is zeroed.
* Sizes of frames, and of the log, fit into an `int`; lengths of messages fit into `size_t`.
* The layout is that of a 64-bit system: 8-byte `size_t`, little endian; a slab record has 48
  bytes and a block header 24.
* The hash function is an arbitrary function of the key, reduced modulo the table's size.
* The random level of a skip-list node, the addresses that the system gives for new memory, the
  outcome of `fork` and of `socketpair`, and what `recv` returns are parameters.
* A `forward` array of the skip list is a sequence-valued field of its node; words of memory,
  block headers and slab records that the allocator writes are maps from addresses.
* HMOD of a present key without a value has no defined meaning in the code; such a command is
  excluded where engines execute commands (`Commands.DefinedOn`, and `Persistence.AllDefined` for
  the commands of a file or a stream, each on the store that it meets).

## Model

| member | source | states |
|---|---|---|
| `RbTree.RedBlackTree.constructor` | kvs-engine/kvs_rbtree.c:444-454 | a new tree is valid and holds nothing |
| `RbTree.RedBlackTree.LeftRotate` | kvs-engine/kvs_rbtree.c:42-62 | the pointer writes turn the subtree in focus left, wherever it hangs, and change nothing else |
| `RbTree.RedBlackTree.RightRotate` | kvs-engine/kvs_rbtree.c:65-85 | the mirror image |
| `RbBalance.RotateOrder` | kvs-engine/kvs_rbtree.c:42-85 | a rotation preserves the in-order sequence of bindings |
| `RbBalance.RecolorKeeps` | kvs-engine/kvs_rbtree.c:92-97 | recolouring parent, uncle and grandparent moves the one possible red-red edge up and keeps black heights |
| `RbBalance.TurnedOutKeeps` | kvs-engine/kvs_rbtree.c:100-103 | turning an inner grandchild out keeps order and black heights |
| `RbBalance.RaisedKeeps` | kvs-engine/kvs_rbtree.c:105-107 | the last rotation of an insertion leaves no red-red edge |
| `RbTree.RedBlackTree.InsertFixup` | kvs-engine/kvs_rbtree.c:87-132 | the loop ends and restores every red-black rule without changing the order of bindings |
| `RbBalance.LeafInserted` | kvs-engine/kvs_rbtree.c:163-178 | a red leaf where the search ended keeps order and black heights |
| `RbTree.RedBlackTree.FindPlace` | kvs-engine/kvs_rbtree.c:137-161 | the descent ends at the key's node, or at the only place where it can be added |
| `RbTree.RedBlackTree.Insert` | kvs-engine/kvs_rbtree.c:135-181 | a valid tree and an absent key give a valid tree with exactly one more binding; a present key changes nothing |
| `RbBalance.SiblingRaisedKeeps` | kvs-engine/kvs_rbtree.c:189-195 | a red sibling is rotated away without changing the deficit in black height |
| `RbBalance.SiblingReddened` | kvs-engine/kvs_rbtree.c:197-199 | a black sibling with black children turns red and the deficit moves to the parent |
| `RbBalance.NearTurnedKeeps` | kvs-engine/kvs_rbtree.c:202-207 | a red near nephew is rotated outwards |
| `RbBalance.FarTurnedKeeps` | kvs-engine/kvs_rbtree.c:209-212 | the last rotation of a deletion removes the deficit |
| `RbTree.RedBlackTree.DeleteFixup` | kvs-engine/kvs_rbtree.c:183-251 | the loop ends and removes the deficit in black height, also when it stands at the sentinel |
| `RbTree.RedBlackTree.Mini` | kvs-engine/kvs_rbtree.c:13-18 | the leftmost node of a subtree |
| `RbTree.RedBlackTree.Successor` | kvs-engine/kvs_rbtree.c:27-39 | the node whose binding comes next in order, or the sentinel behind the last |
| `RbBalance.RankIs` | kvs-engine/kvs_rbtree.c:27-39 | a node's rank, by which Successor is specified, is the position of its binding in the in-order sequence |
| `RbBalance.UnlinkBalance` | kvs-engine/kvs_rbtree.c:264-277 | cutting a node with one subtree out leaves a red-black tree, or one that lacks one black node at that place |
| `RbTree.RedBlackTree.Delete` | kvs-engine/kvs_rbtree.c:253-301 | for any node of a valid tree: a valid tree without that node's key; the returned node carries the removed key and value |
| `RbTree.RedBlackTree.Search` | kvs-engine/kvs_rbtree.c:303-328 | finds the node with the key, or the sentinel if there is none, within 2 log2(n + 1) visits |
| `RbBalance.HeightBound` | kvs-engine/kvs_rbtree.c:87-328 | black height b means at least 2^b - 1 bindings and a depth of at most 2b, or 2b + 1 under a red root |
| `RbBalance.DepthBound` | kvs-engine/kvs_rbtree.c:303-328 | no path of a red-black tree with n bindings is longer than 2 log2(n + 1) |
| `Bytes.LessExactly` | kvs-engine/kvs_rbtree.c:303-328 | the order of keys is that of `strcmp`: by the first byte that differs, as an unsigned number, and a proper prefix first |
| `RbTree.RedBlackTree.Set` | kvs-engine/kvs_rbtree.c:478-504 | SET inserts an absent key and reports 0, 1 or -1 |
| `RbTree.RedBlackTree.Get` | kvs-engine/kvs_rbtree.c:507-515 | GET looks the key up |
| `RbTree.RedBlackTree.Del` | kvs-engine/kvs_rbtree.c:517-530 | DEL removes a present key and reports 0, 1 or -1 |
| `RbTree.RedBlackTree.Mod` | kvs-engine/kvs_rbtree.c:532-549 | MOD replaces the value of a present key and reports 0, 1 or -1 |
| `RbTree.RedBlackTree.Exist` | kvs-engine/kvs_rbtree.c:551-559 | EXIST reports 0, 1 or -1 |
| `SkipListEngine.SkipList.constructor` | kvs-engine/kvs_skiptable.c:57-65 | a new list is valid and holds nothing; its header has 33 links |
| `SkipListEngine.SkipList.Advance` | kvs-engine/kvs_skiptable.c:97-99 | on one level, the search ends at the last node before the key |
| `SkipListEngine.SkipList.FindPath` | kvs-engine/kvs_skiptable.c:94-103 | on every level, the recorded node is the last one before the key, and the next node on the lowest level is the key's if there is one |
| `SkipLevels.SplicedSound` | kvs-engine/kvs_skiptable.c:116-119 | linking a new node on one level keeps every level an ascending chain |
| `SkipLevels.UnlinkingTest` | kvs-engine/kvs_skiptable.c:157-164 | the link on the recorded path leads to the node exactly on the levels it has, so the loop may stop at the first other level |
| `SkipListEngine.SkipList.Set` | kvs-engine/kvs_skiptable.c:92-122 | for any drawn level: SET inserts an absent key, all levels stay in order, and the new node is on exactly the levels up to the drawn one |
| `SkipListEngine.SkipList.Get` | kvs-engine/kvs_skiptable.c:123-139 | GET looks the key up |
| `SkipListEngine.SkipList.UnlinkAll` | kvs-engine/kvs_skiptable.c:157-164 | the node is taken off every level that has it |
| `SkipListEngine.SkipList.Shrink` | kvs-engine/kvs_skiptable.c:170 | the current level becomes the highest one in use |
| `SkipListEngine.SkipList.Del` | kvs-engine/kvs_skiptable.c:141-178 | DEL removes a present key, and all levels stay in order |
| `SkipListEngine.SkipList.Mod` | kvs-engine/kvs_skiptable.c:179-202 | MOD replaces the value of a present key |
| `SkipListEngine.SkipList.Exist` | kvs-engine/kvs_skiptable.c:203-208 | EXIST reports 0, 1 or -1 |
| `SkipListEngine.SkipList.Shape` | kvs-engine/kvs_skiptable.c:92-178 | in every valid list the lowest level ascends, level i+1 is a subsequence of level i, and no level above the current one is in use |
| `HashEngine.HashTable.constructor` | kvs-engine/kvs_hash.c:143-154 | a new, zeroed table is valid and holds nothing |
| `HashEngine.HashTable.Find` | kvs-engine/kvs_hash.c:190-199 | walking the key's chain finds its node exactly if the table holds the key |
| `HashEngine.HashTable.Set` | kvs-engine/kvs_hash.c:186-210 | SET inserts an absent key |
| `HashEngine.HashTable.Get` | kvs-engine/kvs_hash.c:213-232 | GET looks the key up |
| `HashEngine.HashTable.Mod` | kvs-engine/kvs_hash.c:235-269 | MOD replaces the value of a present key |
| `HashEngine.HashTable.FindBefore` | kvs-engine/kvs_hash.c:295-305 | the walk stops before the key's node, or at the last node if no node of the table has the key |
| `HashEngine.HashTable.Del` | kvs-engine/kvs_hash.c:275-318 | DEL removes a present key, and reports -1 for a missing one |
| `HashEngine.HashTable.Exist` | kvs-engine/kvs_hash.c:321-328 | EXIST reports 0 or 1 |
| `HashEngine.HashTable.CountIsSize` | kvs-engine/kvs_hash.c:186-318 | in every valid table the count field is the number of keys, and no key is chained twice |
| `HashEngine.HashTable.InItsSlot` | kvs-engine/kvs_hash.c:186-190 | each node is chained in the slot that the hash of its key gives modulo 1000000, and in no other |
| `HashChains.InChain` | kvs-engine/kvs_hash.c:213-232 | the table holds a key exactly if the chain of the key's slot does |
| `Commands.ExecIs` | kvstore.c:154-396 | a command goes to the engine its first letter names, and is logged exactly if it is a write answered by OK |
| `Commands.LogReplays` | kvstore.c:439-441 | replaying the log of any run has the effect of the run, and each logged command succeeded in its turn |
| `Commands.LogIdempotent` | kvstore.c:521-529 | replaying a log on the store that it led to changes nothing |
| `Commands.DumpThenLog` | kvstore.c:521-529 | loading the store after any prefix of the log and then replaying the whole log equals replaying it from empty |
| `Commands.DumpThenShortLog` | kvs-module/kvs_log.c:94-130 | with a log that ends before the dump was taken, each key is as in the dump or as in the log |
| `Commands.ShortLogMixes` | kvs-module/kvs_log.c:94-130 | in that case the store as a whole may be one that never was |
| `Commands.FailedWritesMustNotBeLogged` | kvstore.c:439-441 | if failed writes were logged, a dump and the log could bring back a value that was never set |
| `Meeting.AtRun` | kvstore.c:154-396 | what a run makes of one key depends on that key's value and the commands that name it alone |
| `Meeting.RunsAgree` | kvs-ebpf/kvs_agent.c:284-302 | two stores that run the same commands end up the same exactly if each key is the same in both, or meets: a scan for the command that makes both equal |
| `Meeting.LogOnStore` | kvs-module/kvs_log.c:94-130 | a log replayed on any store: exactly when it leads to the log's own store, and exactly when it leaves the store as it was |
| `Database.Engines.constructor` | kvstore.c:479-502 | three empty engines |
| `Database.Engines.OnRbtree` | kvstore.c:210-260 | the tree's commands change the tree alone, and are answered as its contents say |
| `Database.Engines.OnHash` | kvstore.c:264-314 | the same for the hash table |
| `Database.Engines.OnSkiplist` | kvstore.c:318-368 | the same for the skip list |
| `Database.Engines.Execute` | kvstore.c:125-449 | the dispatch refines the commands' meaning on the abstract stores: effect, answer, and whether the command is logged |
| `WireText.NamedExactly` | kvstore.c:57-63 | each of the fifteen words, in text, names its engine and its verb, and no other word does |
| `WireText.AnswersAfter` | kvstore.c:210-368 | after any commands, the answers of GET, EXIST, SET, MOD and DEL tell what the key holds then |
| `WireText.AnswersWithout` | kvstore.c:210-368 | the answers to commands that lack a key or a value |
| `WireText.ReadsWhatWasWritten` | kvstore.c:210-368 | after a write that was answered by OK, and any commands that leave the key alone, GET answers what was written |
| `Mirror.Send` | kvstore.c:210-368 | an operation sent to the three engines in turn: tree and skip list answer the same, and the hash table something else exactly when DEL, or MOD without a value, names a missing key |
| `Mirror.SendAll` | kvstore.c:210-368 | after any operations the three engines hold the same map, and each answer was as stated for one operation |
| `Kvsp.ParseExact` | kvs-protocol/kvs_protocol.c:9-58 | the parser accepts exactly the strings that start with a complete frame, and gives exactly its lengths |
| `Kvsp.VerdictStable` | kvs-protocol/kvs_protocol.c:9-58 | a verdict other than "more bytes needed" never changes when bytes are appended |
| `Kvsp.BadIsHopeless` | kvs-protocol/kvs_protocol.c:9-58 | no continuation makes a frame of a malformed prefix |
| `KvspExact.NeedMoreExactly` | kvs-protocol/kvs_protocol.c:9-58 | a prefix for which more bytes are asked can still become a frame exactly if its length leaves room in an `int` and what stands behind the length is CR |
| `KvspExact.BadExactly` | kvs-protocol/kvs_protocol.c:36-47 | with the head whole, a prefix is called malformed exactly if no continuation starts with a frame |
| `Kvsp.FrameRoundTrip` | kvs-protocol/kvs_protocol.c:237-298 | a built frame of up to 128 tokens and 2147483647 bytes, followed by any bytes, parses to its exact lengths and splits into exactly those tokens |
| `Kvsp.TokensRoundTrip` | kvs-protocol/kvs_protocol.c:166-205 | splitting the notation of any tokens gives them back, whatever bytes they contain |
| `KvspExact.TokensExactly` | kvs-protocol/kvs_protocol.c:166-205 | the reader finds exactly the tokens that the bytes denote, if there is room for them |
| `KvspExact.BodyExactly` | kvs-protocol/kvs_protocol.c:149-206 | a body is split exactly if it is the notation of at most 128 tokens, followed by CR LF |
| `WireText.FrameText` | kvs-protocol/kvs_protocol.c:237-298 | a frame in text: its marks are `#`, `^`, `&` and CR LF |
| `WireText.DecText` | kvs-protocol/kvs_protocol.c:237-298 | lengths are decimal, with the digits `0` to `9` |
| `WireText.TwoCommands` | kvs-server/ntyco.c:106-150 | literal bytes on the wire: RSET sets the key, RDEL removes it, and both are logged |
| `KvspCode.ScanNumber` | kvs-protocol/kvs_protocol.c:24-33 | the digit loop gives the value of the run of digits, or reports an overflow of `int` exactly if there is one |
| `KvspCode.ParseBulkSize` | kvs-protocol/kvs_protocol.c:9-58 | the code gives the specified verdict on every buffer |
| `KvspCode.ReadToken` | kvs-protocol/kvs_protocol.c:171-199 | one token: its place and length, or the error |
| `KvspCode.SplitTokens` | kvs-protocol/kvs_protocol.c:149-206 | in place: the pointers lead to the tokens as C strings, bad bodies are refused, and no byte outside of the body changes |
| `KvspCode.BuildFrame` | kvs-protocol/kvs_protocol.c:237-298 | the buffer that is filled by offsets holds exactly the frame |
| `Framing.RestIsStuck` | kvs-server/ntyco.c:106-150 | what remains after the loop holds no complete frame |
| `Framing.DrainAppend` | kvs-server/ntyco.c:106-150 | handling a longer stream continues where the shorter one stopped |
| `Framing.ChunkingIndependence` | kvs-server/ntyco.c:71-150 | however a stream is cut, the same frames are handled and the same bytes remain |
| `ServerReader.ReadCommand` | kvstore.c:459-476 | a frame split in place gives the command it encodes |
| `ReceiveLoop.Connection.Append` | kvs-server/ntyco.c:82-92 | the buffer is doubled exactly if what was received does not fit, and then it does |
| `ReceiveLoop.Connection.SplitFrame` | kvs-server/ntyco.c:129-136 | the frame's command, and the bytes behind the frame are as before |
| `ReceiveLoop.Connection.HandleFrame` | kvs-server/ntyco.c:129-139 | the frame's command is executed on the server and logged if it is a write that succeeds; a frame without a command changes nothing |
| `ReceiveLoop.Connection.NextFrame` | kvs-server/ntyco.c:106-150 | one round of the loop: a frame is executed and consumed, or more bytes are needed, or the stream is given up |
| `ReceiveLoop.Connection.Process` | kvs-server/ntyco.c:106-150 | the loop executes every complete frame, and gives up at a malformed or refused one |
| `ReceiveLoop.Connection.Receive` | kvs-server/ntyco.c:71-150 | after any number of chunks, what was executed and what is left depend on the bytes received alone; store and log change by the commands of the chunk |
| `ReceiveLoop.Serve` | kvs-server/ntyco.c:71-150 | a connection's whole life: the store becomes the run of the stream's commands, and the log grows by the log of that run, however the stream is cut |
| `Several.ReceiveHere` | kvs-server/ntyco.c:71-150 | a chunk on its connection: the commands in it and in what was left over there are executed, and what is left over is kept |
| `Several.ReceiveOn` | kvs-server/ntyco.c:71-150 | no other connection is disturbed |
| `Several.ServeAll` | kvs-server/ntyco.c:71-150 | several connections whose chunks arrive in any order: the store becomes the run of all executed commands in order, and the log grows by the log of that run |
| `Persistence.HandleSave` | kvs-module/kvs_save.c:59-93 | a dump's record is loaded into its engine unless the key is there; records of another form end the loading |
| `Persistence.FileRead` | kvs-module/kvs_log.c:31-90 | reading a file executes its frames in order, up to the first that is torn, malformed or refused |
| `Recovery.FrameCommand` | kvs-module/kvs_log.c:132-141 | a logged frame reads back as the logged command |
| `Recovery.TornFrame` | kvs-protocol/kvs_protocol.c:42-55 | no proper prefix of a frame is taken for a frame |
| `Recovery.CrashTruncation` | kvs-module/kvs_log.c:31-90 | replaying the first n bytes of a log executes exactly the commands whose frames are whole |
| `Recovery.ReplayLog` | kvs-module/kvs_log.c:94-130 | the whole log replays as a whole |
| `Recovery.Reframed` | kvs-module/kvs_log.c:132-141 | every command that came in a frame fits into a frame again, so that it can be logged |
| `Dump.BuildRecord` | kvs-module/kvs_save.c:128-185 | the dump's format string writes a KVSP frame of engine, key and value |
| `Dump.LoadRecords` | kvs-module/kvs_save.c:59-93 | loading an engine's records adds the bindings whose keys are not there yet |
| `Dump.LoadDump` | kvs-module/kvs_save.c:96-126 | loading a dump into empty engines gives the bindings in it |
| `WireText.RecordNames` | kvs-module/kvs_save.c:128-151 | the names of the engines in a record, in text |
| `WireText.LoadsByLetter` | kvs-module/kvs_save.c:59-93 | a record goes to the engine that the first letter names, unless the key is there; one of another engine changes none of the three, and one without three tokens ends the loading |
| `Traversal.WriteRbtree` | kvs-module/kvs_save.c:241-255 | the recursion writes the records of a subtree, each node before its subtrees |
| `Traversal.PreOrderMap` | kvs-module/kvs_save.c:241-255 | that order makes no difference to the map |
| `Traversal.WriteHash` | kvs-module/kvs_save.c:269-289 | the loop writes every binding, although it stops when as many are out as the count field says |
| `Traversal.WriteSkiplist` | kvs-module/kvs_save.c:315-325 | the loop writes the lowest level |
| `Traversal.WriteDump` | kvs-module/kvs_save.c:259-328 | the file holds all bindings of the three engines and no others |
| `Traversal.SaveLoad` | kvs-module/kvs_save.c:96-126 | loading a saved store gives that store |
| `Server.Server.constructor` | kvstore.c:521-529 | a start loads the dump and then replays the log; after a stop that left both whole, engines and log are consistent again |
| `Server.Restart` | kvstore.c:521-529 | whole log, and no dump or one taken at any time: the server comes back with the store it had |
| `Server.Server.WriteLog` | kvs-module/kvs_log.c:132-173 | a write at the remembered offset appends the frame |
| `Server.Server.Execute` | kvstore.c:439-448 | in every run the log holds exactly the successful writes in order, and the engines hold what the log says |
| `Server.CrashRecovery` | kvs-module/kvs_log.c:94-130 | dump and torn log bring back the store after the last whole frame if the log reaches back to the dump; else each key is as in one of the two, and the whole store is the log's, or the dump's, exactly if for each key its value counts |
| `Server.LogRecovery` | kvs-module/kvs_log.c:94-130 | without a dump, the torn log brings back the store after its last whole frame |
| `SaveControl.Saver.constructor` | kvs-module/kvs_save.c:53-55 | no child, no pending SAVE |
| `SaveControl.Saver.ForkChild` | kvs-module/kvs_save.c:409-460 | the child sees the store of this time; each outcome leaves the status that the code leaves |
| `SaveControl.Saver.Save` | kvs-module/kvs_save.c:497-515 | a SAVE starts a child, or is merged with those that wait for the running one, or is refused |
| `SaveControl.Saver.ChildDone` | kvs-module/kvs_save.c:380-406 | whenever the status is idle, the last dump was forked at or after the last acknowledged SAVE, exactly if it was not so that SAVEs were waiting when that dump was finished and there was no socket |
| `SaveControl.DroppedSave` | kvs-module/kvs_save.c:399-415 | without a socket for the next child a merged SAVE is dropped, although it was answered by OK |
| `Durability.DumpInLog` | kvs-module/kvs_save.c:409-435 | the store that a child saw after some commands is the store after the commands logged by then |
| `Durability.CrashAfterRun` | kvstore.c:521-529 | a run, a dump of it and a torn log: the server comes back with its store after some command not before the dump, if the log reaches back to the dump; else as `CrashRecovery` says |
| `Durability.AcknowledgedSurvives` | kvs-module/kvs_save.c:497-515 | with no child running, no SAVE dropped and a log that reaches back to the dump, nothing executed before the last acknowledged SAVE is lost |
| `Ring.LengthRoundTrip` | kvs-ebpf/kvs_agent_ds.c:131 | an 8-byte length in memory reads back as the length |
| `Ring.LowestFirst` | kvs-ebpf/kvs_agent_ds.c:131 | a length is eight bytes, the lowest first |
| `Ring.AgentCache.WriteBytes` | kvs-ebpf/kvs_agent_ds.c:98-120 | appends the bytes, around the end if need be, or changes nothing |
| `Ring.AgentCache.ReadBytes` | kvs-ebpf/kvs_agent_ds.c:140-162 | takes the oldest bytes |
| `Ring.AgentCache.PeekLen` | kvs-ebpf/kvs_agent_ds.c:164-185 | shows the first 8 bytes without taking them |
| `Ring.AgentCache.Write` | kvs-ebpf/kvs_agent_ds.c:123-138 | appends exactly one message to the queue, or changes nothing |
| `Ring.AgentCache.Read` | kvs-ebpf/kvs_agent_ds.c:187-217 | takes the oldest message, byte for byte |
| `Agent.HandleInOrder` | kvs-ebpf/kvs_agent.c:380-440 | each handled frame keeps: sent frames, then cached ones, are all write frames in order, and only a full sync caches |
| `Agent.RunInOrder` | kvs-ebpf/kvs_agent.c:442-477 | the same after every stream of bytes |
| `Agent.ReplicationAgent.ParseCommand` | kvs-ebpf/kvs_agent.c:326-378 | the command word is the first token as a C string, and bad bodies are refused |
| `Agent.ReplicationAgent.SendCache` | kvs-ebpf/kvs_agent.c:304-324 | everything cached is sent in order, and the cache is empty |
| `Agent.ReplicationAgent.HandleFrame` | kvs-ebpf/kvs_agent.c:380-440 | the three-state machine does what the specification says, and an error changes nothing |
| `Agent.ReplicationAgent.SendToSlave` | kvs-ebpf/kvs_agent.c:442-477 | after any events, what the agent did depends on the bytes it saw alone |
| `Agent.ReplicationAgent.NothingLost` | kvs-ebpf/kvs_agent.c:442-477 | sent frames and then the ring's messages are all write frames, in order and once |
| `WireText.ForwardedWords` | kvs-ebpf/kvs_agent.c:44-50 | the agent forwards exactly the commands with one of twelve words, in text |
| `WireText.HandshakeWords` | kvs-ebpf/kvs_agent.c:44-50 | the words that begin and end a full sync, in text |
| `WireText.ForwardsWhatChanges` | kvs-ebpf/kvs_agent.c:44-50 | of the commands of the three engines, it forwards exactly those that can change a store |
| `WireText.ForwardsExactly` | kvs-ebpf/kvs_agent.c:424-431 | what it sent and holds back is, in order, the frames of the stream with such a first token |
| `Meeting.RunRestores` | kvs-server/ntyco.c:137-139 | commands leave a store as it is exactly if each key is restored: a scan back for the last command with an effect |
| `Traffic.WordOfCommand` | kvs-ebpf/kvs_agent.c:326-378 | where a frame has a command, the word that the agent reads is the command's |
| `Traffic.HandleByKind` | kvs-ebpf/kvs_agent.c:380-440 | what the agent does with any frame depends on its first token |
| `Traffic.RunWrites` | kvs-ebpf/kvs_agent.c:44-50 | the commands that the agent does not forward change nothing |
| `Traffic.WritesOfFrames` | kvs-ebpf/kvs_agent.c:380-440 | the writes among the commands of any frames are those of the frames that the agent forwards |
| `Traffic.AgentCuts` | kvs-ebpf/kvs_agent.c:442-477 | what the agent forwards is what it finds in the stream of all bytes, in order, as long as nothing stops it |
| `Traffic.FullSyncQuiet` | kvs-ebpf/kvs_agent.c:399-431 | until a frame ends the full sync, the agent sends nothing |
| `Traffic.DeliverCuts` | kvs-server/ntyco.c:106-150 | a connection executes the frames that the agent would find in its bytes, unless one is refused with more behind it |
| `Traffic.OrderlyExactly` | kvs-ebpf/kvs_agent.bpf.c:47-76 | at all times the server has executed exactly the writes that the agent found, if and only if that is so chunk by chunk |
| `Traffic.TurnsAreOrderly` | kvs-ebpf/kvs_agent.c:442-477 | it is so if no chunk arrives in the middle of another connection's frame and nothing stands behind a refused frame in its chunk |
| `Convergence.LoadingIs` | kvs-module/kvs_sync.c:205-209 | reading the snapshot's file into the empty slave gives the master's store of the time it was taken |
| `Convergence.NextKeeps` | kvs-module/kvs_sync.c:471-531 | every event of master, agent and slave keeps the invariant |
| `Convergence.EveryRun` | kvs-module/kvs_sync.c:169-293 | so does every run |
| `Convergence.SettledState` | kvs-server/ntyco.c:129-139 | with nothing under way, whatever the traffic: the slave has executed the frames sent to it up to the first that is refused, it closed the connection exactly if there is one, and the master has executed what its connections delivered |
| `Convergence.SettledExactly` | kvs-ebpf/kvs_agent.c:284-302 | for any traffic and any moment of registration, exactly when the slave has the master's store: under each key, what the commands in which the two differ make of the value agrees under the common ones behind them |
| `Convergence.SlaveConverges` | kvs-module/kvs_sync.c:221-261 | it has the master's store if what it executes is what the master executed since the snapshot |
| `Convergence.CutExactly` | kvs-server/ntyco.c:137-139 | if it misses the end of what the master executed, exactly if that restores each key |
| `Convergence.CutForGood` | kvs-server/ntyco.c:137-139 | after it closed the connection, no run changes the slave's store |
| `Convergence.RegisteredInTime` | kvs-ebpf/kvs_agent.c:219-236 | a slave gets exactly what comes behind its snapshot if the agent was between frames and in no full sync when the SYNC arrived, has handled it, and has seen no end of the full sync yet |
| `Convergence.OrderlyIsHeard` | kvs-ebpf/kvs_agent.bpf.c:47-76 | in orderly traffic the agent heard what the master executed, at the snapshot and now |
| `Convergence.SinceIsForwarded` | kvs-ebpf/kvs_agent.c:380-440 | then the master's writes since the snapshot are those of the forwarded frames behind it |
| `Convergence.SlaveFollows` | kvs-module/kvs_sync.c:169-261 | and from loading the snapshot on, a slave in time has the master's store after some prefix of its commands |
| `Convergence.InTimeLists` | kvs-ebpf/kvs_agent.c:284-302 | for any traffic with all sent: what a slave in time executes is the frames behind its snapshot up to the first that is refused |
| `Convergence.EarlyLists` | kvs-ebpf/kvs_agent.c:284-302 | for any traffic with all sent: what an early slave executes is the repeated frames and then those behind its snapshot |
| `Convergence.LateLists` | kvs-ebpf/kvs_agent.c:219-236 | for any traffic with all sent: what a late slave executes is the frames from its registration on |
| `Convergence.InTimeExactly` | kvs-module/kvs_sync.c:221-261 | with all sent, it is cut off exactly if a forwarded frame behind the snapshot is refused, has the master's store if none is, and in any case exactly if the writes that it missed restore each key |
| `Convergence.TurnsConverge` | kvs-module/kvs_sync.c:221-261 | in particular, if clients take turns and no frame is refused |
| `Convergence.EarlyExactly` | kvs-ebpf/kvs_agent.c:284-302 | exactly when a slave registered too early, which executes commands again, converges |
| `Convergence.LateExactly` | kvs-ebpf/kvs_agent.c:219-236 | exactly when a slave registered too late, which misses commands, converges |
| `Convergence.EarlySlaveConverges` | kvs-ebpf/kvs_agent.c:284-302 | the early one does if the repeated commands had all succeeded on the master |
| `Convergence.LateSlaveConverges` | kvs-ebpf/kvs_agent.c:219-236 | the late one does if the missed commands had all failed on the master |
| `DivergingRuns.RefusedFrame` | kvs-protocol/kvs_protocol.c:171-199 | a frame that the master refuses for its third token, and that the agent forwards for its first |
| `DivergingRuns.RefusedSlaveDiffers` | kvs-server/ntyco.c:137-139 | a run in which a slave in time closes its connection at that frame and misses a write |
| `DivergingRuns.BadFrame` | kvs-protocol/kvs_protocol.c:171-199 | a frame that the master refuses and that the agent does not forward |
| `DivergingRuns.DroppedSlaveDiffers` | kvs-server/ntyco.c:137-139 | a run in which a write stands behind that frame in its chunk: the master drops it, and a slave in time, which is not cut off, has it |
| `DivergingRuns.InterleavedSlaveDiffers` | kvs-ebpf/kvs_agent.c:442-477 | a run in which a write arrives in the middle of another connection's frame: the agent gives up, and a slave in time misses it |
| `DivergingRuns.CutDiffers` | kvs-server/ntyco.c:137-139 | from every world in which the slave was cut off, a run leads to one in which it differs from the master |
| `DivergingRuns.EarlySlaveDiffers` | kvs-ebpf/kvs_agent.c:284-302 | a run in which a slave registered too early differs, for a write that failed on the master |
| `DivergingRuns.LateSlaveDiffers` | kvs-ebpf/kvs_agent.c:219-236 | a run in which a slave registered after the end of the full sync misses a write for good |
| `SlabLists.InsertedChain` | kvs-mempool/kvs_mempool.c:13-17 | insertion keeps a doubly linked list |
| `SlabLists.RemovedChain` | kvs-mempool/kvs_mempool.c:19-24 | removal from any place keeps a doubly linked list |
| `SlabAllocator.Allocator.Insert` | kvs-mempool/kvs_mempool.c:13-17 | the slab is in front of that list, and no other list changes |
| `SlabAllocator.Allocator.Remove` | kvs-mempool/kvs_mempool.c:19-24 | the slab is off that list, and no other list changes |
| `SlabAllocator.RoundDown` | kvs-mempool/kvs_mempool.c:27-29 | clearing the low bits of an address in an aligned slab gives the slab's address |
| `SlabAllocator.AlignedInside` | kvs-mempool/kvs_mempool.c:31-53 | an aligned slab fits into a mapping of twice its size |
| `SlabAllocator.Allocator.constructor` | kvs-mempool/kvs_mempool.c:56-67 | no slabs, no live blocks |
| `SlabAllocator.GetClassId` | kvs-mempool/kvs_mempool.c:104-115 | the first class that is large enough, or -1 |
| `SlabAllocator.KindsBySize` | kvs-mempool/kvs_mempool.c:283-308 | up to 128 bytes without a header, above 8168 bytes from the C library |
| `SlabAllocator.LittleWaste` | kvs-mempool/kvs_mempool.c:104-115 | a block is less than twice as large as needed, and above 128 bytes less than a quarter larger |
| `SlabBlocks.ClassSteps` | kvstore.h:316-340 | above 128 bytes there are four classes to the next power of two, with slabs of the same sizes again and again |
| `SlabBlocks.Layout` | kvs-mempool/kvs_mempool.c:117-176 | where the blocks of a slab lie, and how many small ones there are |
| `SlabAllocator.Allocator.BuildFreeList` | kvs-mempool/kvs_mempool.c:134-140 | the free list of a new slab runs through all its blocks, and no word elsewhere changes |
| `SlabAllocator.Allocator.NewSlab` | kvs-mempool/kvs_mempool.c:117-176 | a new slab has all its blocks free and shares no memory with another |
| `SlabAllocator.Allocator.TakeSlab` | kvs-mempool/kvs_mempool.c:196-221 | a partial slab if there is any, else an empty one, and a new one only if there is neither |
| `SlabAllocator.Allocator.Allocate` | kvs-mempool/kvs_mempool.c:223-280 | exactly one more live block, the first free one of that slab, and every slab on the list its free count asks for |
| `SlabAllocator.Allocator.Malloc` | kvs-mempool/kvs_mempool.c:283-308 | the block has room for the request, was not live, is of the smallest class that will do, and has a header exactly if the request is not small; there is one slab more exactly if no slab of the class had a free block |
| `SlabAllocator.SmallClass` | kvs-mempool/kvs_mempool.c:287-290 | requests without a header get a headerless class |
| `SlabAllocator.BigClass` | kvs-mempool/kvs_mempool.c:293-307 | requests with a header never do |
| `SlabAllocator.Allocator.SlabFree` | kvs-mempool/kvs_mempool.c:311-337 | a slab moves to the list its free count asks for, and goes back to the system exactly if it is empty and another empty one is kept |
| `SlabAllocator.Allocator.FreeWithHeader` | kvs-mempool/kvs_mempool.c:339-351 | exactly one live block fewer, found by its header |
| `SlabAllocator.Allocator.FreeWithoutHeader` | kvs-mempool/kvs_mempool.c:353-361 | exactly one live block fewer, found by masking its address |
| `SlabAllocator.Allocator.Free` | kvs-mempool/kvs_mempool.c:363-395 | freeing a live block of either kind keeps the partition and all slabs, but for its own if that block was the last live one and another slab of the class is empty |
| `SlabAllocator.Masked` | kvs-mempool/kvs_mempool.c:388 | masking any headerless block's address gives its slab |
| `SlabAllocator.Allocator.Partition` | kvs-mempool/kvs_mempool.c:311-395 | in every valid state a slab is on exactly one list, as its free count says, and each of its blocks is free or live and not both |
| `SlabAllocator.Allocator.NoOverlap` | kvs-mempool/kvs_mempool.c:223-308 | in every valid state no two live blocks overlap |
| `SlabAllocator.Allocator.Write` | kvs-mempool/kvs_mempool.c:270-279 | a caller that writes any number of bytes into its own block does not disturb the allocator, whatever that makes of the words, headers and records that overlap them |

## Left out

- The array engine (kvs-engine/kvs_array.c): linear scans only; its commands neither change the modelled stores nor appear in the modelled log.
- RESP parsing: it relies on `atoi` and has no encoder to pair with; a connection that starts with `*` is recognised and not followed further.
- Replies as bytes, and the write buffer of a connection: plumbing around the answers that are modelled.
- Failed allocation, also in the middle of an operation, and `mp_realloc`.
- How `mp_free` tells the kinds of blocks apart by the bytes before the pointer: the kind is a parameter of `Free`. Large blocks come from the C library, and that they overlap nothing is left to it.
- `mp_destroy`, `kvs_skiplist_destroy`, `kvs_hash_destory` and `kvs_rbtree_destory`: they only give memory back.
- The hash functions themselves.
- Appending to a log that was torn: the append offset is past the torn bytes, so recovery is stated for one recovery.
- A file that holds a SYNC or another command of the handshake: a log never does.
- Sockets, coroutines, io_uring, RDMA, the eBPF probe: that the agent gets every chunk whole, and in the order in which the master received them, is assumed in `Convergence`.
- Traffic in RESP, and a join that the observed slave itself gives up, in `Convergence`; the joins of other slaves are part of the traffic.
- Clients that write to the slave directly.
- The agent's outer queue of events: it is the same ring buffer as the cache of the full sync.
- The SAVE command of the servers other than NtyCo, which poll the child.
- Convergence.EveryRun: HMOD of a present key without a value, which has no defined meaning, does not arrive at the master, and the slave does not go past one.
- ReceiveLoop.Serve: a stream that starts with `*` is RESP, which is not followed further, and so excluded; the same holds for Several.ServeAll.
- SaveControl.Saver.Save: with the module for dumps switched off, the code answers OK without doing anything; the model has it switched on.
