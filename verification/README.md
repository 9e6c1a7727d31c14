# CoreFS and the name-node layer, modelled and proved

The repository holds two systems. CoreFS 1.5 is a network file system: a FUSE client and a server that exchange
tagged packets over TCP. Beside it lies a name-node/data-node layer over UDP with a namespace tree kept in memory.
This project models the parts of both that carry protocol and data-structure invariants, and proves what they keep.

| file | what it models |
|---|---|
| `Sequences.dfy` | facts about sequences that the others share |
| `Bytes.dfy`, `Wire.dfy`, `PacketCode.dfy` | the packets, their network form, and the buffer code that writes and reads it |
| `Framing.dfy` | the read and write loops and the framing of packets on a byte stream, as a step machine and as methods |
| `Endpoint.dfy`, `Server.dfy` | replies and their interpretation, the second packet of a write, the handlers of the server |
| `Client.dfy`, `Calls.dfy` | requests from the client to the server, and whole calls up to the value that the client returns |
| `Session.dfy` | whole runs of one client against one server: which call reads which reply |
| `Service.dfy` | the steps of the server in such a run, as its main loop takes them from the byte stream |
| `Readdir.dfy` | the paging loop, from the directory to the filler, over the wire |
| `LruSpec.dfy`, `LruList.dfy` | the recency list as a sequence, and as a doubly linked list on the heap |
| `Decimal.dfy`, `Splitting.dfy` | printed numbers, and text cut at separators |
| `SelectLoop.dfy` | slots, descriptor set, marks and context list of the single-process server |
| `NamespaceSpec.dfy`, `NamespacePaths.dfy`, `NamespaceText.dfy` | the namespace tree as a preorder sequence, its paths, its text form |
| `Namespace.dfy`, `NamespaceRecovery.dfy`, `NamespaceRuns.dfy` | the tree on the heap, its dump and rebuild, and whole runs |
| `NamespaceSearch.dfy` | what a search finds after a run, and when it dereferences null |
| `AttrCache.dfy` | the ring cache of attributes |
| `NameNode.dfy` | the placement tables and the command loop of the name node |
| `GetattrReply.dfy` | the textual getattr reply |

Facts about the code that the proofs bring out:

- A write rejected before its data packet is read leaves that packet on the stream. The server then answers it as a
  command, and from there on every reply on the connection is read by the wrong call (`Session.NextCallReadsStray`,
  with a run in `Session.StrayReadByGetattr`).
- `client_receive_specified` promises -EIO for a failed receive in its comment, but compares an `int` with a `size_t`,
  so that -1 passes and a reply cut by a broken connection is decoded with zeros for what has not arrived. Cut before
  the end of its type word it gives -EPROTO; cut later, data and attributes give their full size, and a refusal with an
  error number below 256 reads as success (`Endpoint.CutReply`, `Endpoint.CutRefusal`). The code is followed.
- The same comparison in `server_receive_specified` lets a cut data packet pass, so that a write cut by a broken
  connection is answered as if it were whole and carries zeros (`Server.CutData`, `Server.CutWriteIsAnswered`).
- Inserting into a full recency list makes the chain a cycle (`LruList.List.InsertFull`, `LruList.List.LoopedIsNoChain`);
  the intended relinking is proved beside it.
- The namespace tree hangs a new node under the last sibling when that is a folder and drops what was there. That is
  why a folder is always the last of its siblings, and why dump and rebuild undo each other.
- A location such as `home/a1/b2/home`, which leads back to the root from below its children, is accepted. The entry
  takes the place of everything behind it, and the recovery of the dump ends on a null pointer
  (`NamespaceSpec.AddRebuiltIff`, `NamespaceRuns.AnyAdditionSurvivesIff`, `NamespacePaths.HomeAgainStopsRebuild`).
- A process that finds a dump counts from 0, so that the node behind the root gets the number of the root
  (`NamespaceRuns.RebornNumberedIff`).
- A file added to a folder that has a folder in it goes into that one, and is not found where it was added
  (`NamespaceSearch.FileFoundIff`). A search one name below a file or an empty folder dereferences null
  (`NamespaceSearch.SearchCrashesIff`).
- A folder whose name is one letter cannot be passed on a path (`NamespacePaths.SearchFinds`).
- A dump is appended to the file, and recovery hangs its records, the root included, on the tree of the first
  (`NamespaceRuns.TwoDumpsRecovered`). When the location of the root leads nowhere there, it ends on a null pointer
  (`NamespaceRuns.SecondDumpIsFatal`); it may also give the tree back (`NamespaceRuns.SecondDumpMayRecover`).
- The fifty-first message that the name node records in one entry is written out of bounds (`NameNode.OverrunIff`).
- Numbers of ten and more characters are clipped when they are printed, so that present-day timestamps in a getattr
  reply arrive corrupted (`GetattrReply.AttributesArrive`).

Transport is a byte stream whose send and recv move any positive number of bytes, and whose send may fail when the
connection is about to break. What the operating system, a data node or the network answers is a parameter: an `Os`
record, a ready set, a fresh descriptor, a liveness oracle. Where C would dereference null or run off a buffer, lengths
read from the connection included, the model has an outcome of its own for it, except where "Left out" says otherwise.

## Model

| member | source | states |
|---|---|---|
| Wire.HeaderRoundTrip | corefs-1.5/src/fs/common.c:28-84 | decoding an encoded header restores all four fields, whatever bytes follow |
| Wire.RequestWordAt | corefs-1.5/src/fs/common.c:91-228 | every word of an encoded request, the supplementary gids included, lies at its own multiple of four |
| Wire.OpFieldAt | corefs-1.5/src/fs/common.c:133-228 | the fixed fields of an operation follow the supplementary gids in declaration order |
| Wire.UserLayout | corefs-1.5/src/fs/common.c:91-131 | the request type as its number, uid, gid and count lie at bytes 0, 4, 8 and 12, and gid number i at byte 16 + 4i |
| Wire.OpLayout | corefs-1.5/src/fs/common.c:133-228 | behind them lie the fields of each operation in the order of its structure and then its bytes, and nothing else |
| Wire.ResponseLayout | corefs-1.5/src/fs/common.c:345-415 | the response type as its number lies at byte 0, the resume offset at 4, and data, status, error or the eight attributes from byte 8 on |
| Bytes.NetworkOrder | corefs-1.5/src/fs/common.c:28-57 | the four bytes of a word on the wire are its digits in base 256, the most significant first |
| Wire.RequestRoundTrip | corefs-1.5/src/fs/common.c:91-339 | decode after encode restores every field of every request variant with up to 32 gids and paths below 4096, and both stop at the same position |
| Wire.DecodedRequestReencodes | corefs-1.5/src/fs/common.c:236-339 | whatever bytes the decoder accepts are the encoding of what it returns, so no two requests are confused |
| Wire.ResponseRoundTrip | corefs-1.5/src/fs/common.c:345-471 | decode after encode restores data, more data, status, error and attribute responses with their resume offset |
| Wire.DecodedResponseReencodes | corefs-1.5/src/fs/common.c:421-471 | whatever bytes the client accepts as a response are the encoding of what it returns |
| PacketCode.EncapHeader | corefs-1.5/src/fs/common.c:28-57 | writes the sixteen header bytes at the position given and touches nothing else in the buffer |
| PacketCode.EncapUser | corefs-1.5/src/fs/common.c:91-131 | writes type, uid, gid and the counted gid loop in order and touches nothing else |
| PacketCode.EncapRequest | corefs-1.5/src/fs/common.c:91-228 | the buffer afterwards is the old one with exactly the encoding spliced in, and the position returned is its length |
| PacketCode.EncapResponse | corefs-1.5/src/fs/common.c:345-415 | the buffer afterwards is the old one with exactly the encoding of the response spliced in |
| PacketCode.DecapHeader | corefs-1.5/src/fs/common.c:64-84 | reads the header that the bytes at the position encode |
| PacketCode.DecapRequest | corefs-1.5/src/fs/common.c:236-339 | cursor, gid loop and the four variants read what the decoding function reads, or refuse where the copy would leave the buffer |
| PacketCode.DecapSimple | corefs-1.5/src/fs/common.c:266-293 | reads the two-path variant at its position |
| PacketCode.DecapFileop | corefs-1.5/src/fs/common.c:294-312 | reads the file variant at its position |
| PacketCode.DecapXattr | corefs-1.5/src/fs/common.c:313-335 | reads the attribute variant at its position |
| PacketCode.DecapResponse | corefs-1.5/src/fs/common.c:421-471 | reads resume offset, type and variant of a response |
| PacketCode.FileopSize | corefs-1.5/include/common.h:49-55 | the size announced in the header of a file operation is exactly the size of its encoding |
| PacketCode.SimpleSize | corefs-1.5/include/common.h:57 | a simple operation is framed with exactly one byte more than any encoder writes |
| PacketCode.XattrSize | corefs-1.5/include/common.h:59 | the framed size of an attribute operation is its encoding, with or without a name |
| PacketCode.DataSize | corefs-1.5/src/fs/common.c:484-492 | a data packet is framed exactly if and only if its size fits the 32-bit length field |
| PacketCode.ResponseSizes | corefs-1.5/src/fs/common.c:493-606 | status, error, data, more data and attribute replies are all framed exactly and can be stored |
| Framing.SocketRead | corefs-1.5/src/fs/common.c:611-633 | whatever pieces recv returns, the next `size` bytes of the stream land in the buffer in order and no byte more is taken; otherwise -1 with what there was |
| Framing.SocketWrite | corefs-1.5/src/fs/common.c:639-656 | whatever pieces send accepts, the buffer is appended to the stream once and in order; a send that fails gives -1 and leaves a part of it |
| Framing.HostHeaderRoundTrip | corefs-1.5/src/fs/dummy_mod.c:48-58 | the header decoded in place is read back from host memory as it was |
| Framing.MyReceive | corefs-1.5/src/fs/dummy_mod.c:40-66 | one call takes header and announced payload from the stream and no byte more; the buffer then holds the four header words in host order and the payload, and is otherwise as it was; -1 when either is cut short; it leaves the buffer if and only if the header announces more than the buffer holds |
| Framing.FirstPacketReceived | corefs-1.5/src/fs/dummy_mod.c:40-66 | a packet at the front of any stream is received whole and nothing behind it is touched |
| Framing.PayloadReceived | corefs-1.5/src/fs/dummy_mod.c:40-66 | the same for a header and a payload, and what is left in the buffer when the payload is cut short |
| Framing.CutsAgree | corefs-1.5/src/fs/dummy_mod.c:40-66 | a stream of packets that announce their length can be cut in one way only |
| Framing.PacketsArriveInOrder | corefs-1.5/src/fs/common.c:611-656 | in every interleaving of send and recv steps the packets received are a prefix of those sent, and all of them with nothing left over once every byte has arrived |
| Framing.LinkNotStuck | corefs-1.5/src/fs/common.c:611-656 | while bytes are unsent or under way some step is possible |
| Framing.RunsAreShort | corefs-1.5/src/fs/common.c:611-656 | a run takes at most two steps per byte, so it ends |
| Framing.LinkTakesAsMyReceive | corefs-1.5/src/fs/dummy_mod.c:40-66 | from a packet boundary the two reads of the step machine, served in full, deliver the packet that my_receive returns and leave the stream that it leaves |
| Framing.ReceiveAll | corefs-1.5/src/fs/dummy_mod.c:40-66 | as many calls of my_receive as packets were sent return exactly those packets, in order, and leave nothing on the stream |
| Endpoint.ErrorReply | corefs-1.5/src/fs/server.c:51-57 | puts one framed error packet on the connection, with the number as an unsigned field, or a part of it when the connection breaks |
| Endpoint.SendResponse | corefs-1.5/src/fs/server.c:546-562 | encapsulation and send put exactly the framed reply on the connection, or a part of it when the connection breaks |
| Endpoint.ClientReceive | corefs-1.5/src/fs/common.c:730-782 | takes one packet and returns what the reply interpretation gives, including the int/size_t comparison that lets a failed receive through, or leaves a buffer when a length read says so |
| Endpoint.CompleteReply | corefs-1.5/src/fs/common.c:730-782 | a complete reply is taken whole and interpreted as it was built |
| Endpoint.ErrorReachesClient | corefs-1.5/src/fs/server.c:51-57 | through build, encode, framing and decode, error_reply(e) makes every waiting caller get -e |
| Endpoint.StatusReachesClient | corefs-1.5/src/fs/common.c:764-780 | a status reply gives its bits to the caller that waits for a status |
| Endpoint.OtherTypeReaches | corefs-1.5/src/fs/common.c:755-770 | a reply that is neither an error nor of the type waited for gives the caller -71 |
| Endpoint.CutReply | corefs-1.5/src/fs/common.c:736-782 | a reply of any kind, cut anywhere by a broken connection, for a caller that waits for any type: -EPROTO up to the end of the type word, and from there on what the guard lets through, with zeros for the bytes that have not arrived |
| Endpoint.CutReadsAsError | corefs-1.5/src/fs/common.c:739-780 | the caller sees a failure if and only if the type word has not arrived, or the part of the error number that has is neither zero nor above 2^31, or the part of the status that has reads as negative |
| Endpoint.CutRefusal | corefs-1.5/src/fs/common.c:739-766 | so a refusal with an error number below 256, cut behind its type word, reads as success |
| Endpoint.BuiltIsReply | corefs-1.5/src/fs/common.c:493-606 | every packet the build functions make is a reply in the sense of these results |
| Endpoint.DataFramedIffNoGids | corefs-1.5/src/fs/client.c:521-525 | the data packet built over the command still in network order gets the right length if and only if there are no supplementary gids |
| Endpoint.SendRequest | corefs-1.5/src/fs/client.c:500-519 | encapsulation and send put the framed request on the connection and leave the encoding in the buffer |
| Endpoint.ReadBack | corefs-1.5/src/fs/client.c:521-525 | the user fields read back from a packet in network order are byte-swapped |
| Endpoint.SendWriteData | corefs-1.5/src/fs/client.c:521-531 | builds the data packet over the command buffer and sends it framed as its encoding, or leaves its buffer if and only if the user has supplementary gids |
| Endpoint.WriteDataArrives | corefs-1.5/src/fs/server.c:187-200 | the server cuts the data packet out whole and finds the announced type, size and bytes |
| Server.RequestReceived | corefs-1.5/src/fs/common.c:686-722 | a request on the wire is received whole and decoded to what was sent, if and only if it fits the packet structure, and nothing behind it is touched |
| Server.ServerReceive | corefs-1.5/src/fs/common.c:686-722 | one call takes one packet and returns the request in it, refuses a packet that is none, or leaves a buffer when a length read says so, that of the packet structure included |
| Server.TakeCommand | corefs-1.5/src/fs/server.c:1355-1382 | the receive of the main loop: the packet of the next command, a client that has gone, or lengths that leave a buffer |
| Server.CommandIsTaken | corefs-1.5/src/fs/server.c:1355-1382 | a framed command is taken whole and decoded to what was sent, whatever the buffer held, and nothing behind it is touched |
| Server.CutCommandIsDropped | corefs-1.5/src/fs/server.c:1356-1363 | a command cut anywhere by a broken connection is not handled, and the client is forgotten |
| Server.CutData | corefs-1.5/src/fs/common.c:691-722 | a data packet cut anywhere by a broken connection is taken for the data announced if and only if its type word has arrived, and the bytes that have not arrived are zeros |
| Server.CutWriteIsAnswered | corefs-1.5/src/fs/server.c:187-226 | so a write whose data is cut behind the type word gets the answer it would get had all of it arrived, and zeros are written |
| Client.FileopArrives | corefs-1.5/src/fs/common.c:553-572 | a file operation as built is taken by the server with its user, kind, offset, size and path, each in its own field |
| Client.SimpleArrives | corefs-1.5/src/fs/common.c:574-597 | a simple operation arrives with its kind, offset, mode and its two paths in order, the second one empty when there is none |
| Client.XattrArrives | corefs-1.5/src/fs/common.c:516-548 | an attribute operation arrives with its kind, flags, size, and path and name with a zero between them |
| Client.DoWrite | corefs-1.5/src/fs/client.c:470-531 | on a connection that does not break, what the server takes is a request of this user, kind 28, with this offset, size and path, and behind it, when there are no supplementary gids, a packet of just the data, with sequence number, uid and gid byte-swapped; on one that breaks, a part of that; with supplementary gids the client leaves its buffer after the command |
| Server.HandleRead | corefs-1.5/src/fs/server.c:76-146 | exactly one reply: the error of the first of access check, open, seek and read that fails, and the data read when none does |
| Server.ReceiveData | corefs-1.5/src/fs/server.c:187-198 | takes one packet, hands on its data, and answers with a protocol error exactly when it is not data of the announced size |
| Server.HandleWrite | corefs-1.5/src/fs/server.c:148-226 | one reply; the data packet is taken from the stream only after access, open and seek have succeeded |
| Server.HandleSetxattr | corefs-1.5/src/fs/server.c:230-288 | one reply; the value is taken from the stream before access is checked |
| Server.HandleGetattr | corefs-1.5/src/fs/server.c:515-569 | one reply: attributes or the error |
| Server.HandleReadlink | corefs-1.5/src/fs/server.c:571-602 | one reply: the link target or the error |
| Server.ReplyReaddir | corefs-1.5/src/fs/server.c:495-513 | one reply: a last page, or a page with the offset to go on from |
| Server.HandleSimple | corefs-1.5/src/fs/server.c:608-857 | one reply: a status, or the error of check or call |
| Server.HandleFileop | corefs-1.5/src/fs/server.c:860-885 | exactly one reply for each kind, told field by field: the first failing step, or exactly the data, the page, the attributes or status 0; a write takes its data once access, open and seek have succeeded; other kinds get error 95 |
| Server.HandleXattr | corefs-1.5/src/fs/server.c:887-911 | dispatches to one handler, which sends one reply |
| Server.HandleCommand | corefs-1.5/src/fs/server.c:940-972 | every packet handled gets exactly one reply, told field by field for every kind: error -1, 87 or 36 when it is not sane, the number of the first step that fails (denied access first), or exactly what the system calls gave; a write that gets as far as its data and every setxattr consume a second packet, answered with 71 when it is not data of the announced size |
| Server.CheckSanity | corefs-1.5/src/fs/server.c:913-937 | 0 if and only if magic number, number of gids and path lengths are in order, -1 for a wrong magic number, 87 for too many gids, 36 for a path too long |
| Server.OutcomeAnswers | corefs-1.5/src/fs/server.c:940-972 | the outcome that the results about sessions speak of is that answer, for every command and whatever the system calls give |
| Server.BadMagicReadsAsSuccess | corefs-1.5/src/fs/server.c:913-947 | among the refusals of check_sanity the one for a wrong magic number, and only that one, reaches the client as a value that is not negative |
| Calls.AnswerReaches | corefs-1.5/src/fs/common.c:730-782 | for every kind, the answer reaches the caller through encoding, framing and decoding: the negated number of the first step that fails, or the size of the payload with exactly the data, page and resume offset or attributes, or the status |
| Calls.Call | corefs-1.5/src/fs/server.c:1341-1391 | so it is for a whole call of one packet, from the request of the client to the value that it gets |
| Calls.DoRead | corefs-1.5/src/fs/client.c:399-463 | do_read returns the number of bytes that the server has read and these bytes, or the negated error of the first of access check, open, seek and read that fails |
| Calls.DoWholeWrite | corefs-1.5/src/fs/client.c:470-537 | do_write returns the size, or the negated error of the first of access check, open, seek and write that fails; the data packet is left on the connection if and only if one of the first three does |
| Session.RunKeepsInv | corefs-1.5/src/fs/server.c:1341-1391 | the invariant of the session, over every run: what is on its way, what has been answered, and for which packet |
| Session.UnreadReplies | corefs-1.5/src/fs/client.c:500-536 | with the client idle and the server drained, the unread replies are exactly as many as the calls rejected before their data packet was read |
| Session.LedgerAt | corefs-1.5/src/fs/server.c:148-226 | reply number k answers call number k if and only if no earlier call was rejected early |
| Session.EveryCallReadsItsOwnReply | corefs-1.5/src/fs/client.c:532-536 | the reply that call k has read is its own if and only if no earlier call was rejected early, and then it is an error or of the type asked for |
| Session.NextCallReadsStray | corefs-1.5/src/fs/client.c:532-536 | after one rejected write the next call, whatever it is, reads the refusal of the stray data packet |
| Session.RejectedEarlyIff | corefs-1.5/src/fs/server.c:148-184 | a call is answered before its data is read if and only if it is a write whose access check, open or seek fails |
| Session.AcceptedReplyIsInterpreted | corefs-1.5/src/fs/common.c:764-780 | a reply of an accepted type never turns into a protocol error of the client itself |
| Session.WriteIsWellFormed | corefs-1.5/src/fs/client.c:500-531 | the two packets that do_write sends make a call of such a session |
| Session.StrayReadByGetattr | corefs-1.5/src/fs/client.c:532-536 | a run of eleven states in which a getattr after a refused write reads the refusal of the stray data packet and leaves its own reply unread |
| Service.ServeOne | corefs-1.5/src/fs/server.c:1341-1391 | one turn of the main loop on the byte stream of the packets of a session does the step of the session, or its two steps when data is needed: what it takes from the stream and the reply it sends are those of the step |
| Service.WriteIsFramed | corefs-1.5/src/fs/client.c:500-531 | the packets of do_write are such packets |
| Readdir.Seek | corefs-1.5/src/fs/server.c:475 | offset 0 is in front of the first entry, and the offset that an entry has behind it in front of the next |
| Readdir.PackPage | corefs-1.5/src/fs/server.c:478-493 | the packing loop fills a page with the longest run of entries that fits and reports the offset behind the last one |
| Readdir.HandleReaddir | corefs-1.5/src/fs/server.c:475-502 | from the entry at the offset on, the page holds type byte, name and zero of as many entries as fit, one behind the other and nothing else; the resume offset is that behind the last of them, or 0 when none is left or none was packed |
| Readdir.UnpackPack | corefs-1.5/src/fs/client.c:663-678 | the parser of the client undoes the packing of the server: type byte and zero-terminated name, entry by entry |
| Readdir.FillPage | corefs-1.5/src/fs/client.c:663-678 | the inner loop hands the entries of a page to filler in order until it is full |
| Readdir.PageWithinReach | corefs-1.5/src/fs/server.c:478-493 | going on behind a page reaches as far as going on from its start |
| Readdir.ReachIsEnd | corefs-1.5/src/fs/server.c:480-491 | a listing reaches the end of the directory if and only if every entry fits a page of its own |
| Readdir.DoExchange | corefs-1.5/src/fs/client.c:630-657 | one request over the wire and its reply: the refusal negated, or the page and resume offset of the entries from the offset on, or a page too large for the buffers |
| Readdir.PagesReach | corefs-1.5/src/fs/server.c:478-493 | when no request is refused and pages fit the buffers, the pages go up to the first entry that no page can hold |
| Readdir.DoReaddir | corefs-1.5/src/fs/client.c:601-692 | filler gets, once and in order, the entries from the one at the start offset on, each with its own name and its type byte times 4096 as mode; when no request is refused and pages fit the buffers these are all up to the first entry that fits no page, or as many as filler has room for, and the result is 0; an error returned is that of the first request refused |
| LruSpec.RecencyOrder | corefs-1.5/src/fs/list.c:27-228 | after any run, repeated inserts of a key and evictions included, the entries are in the strict order of the operations that last inserted, looked up or changed them |
| LruSpec.LastIsLeastRecent | corefs-1.5/src/fs/list.c:45-70 | so after any run the last entry is the least recently used one |
| LruSpec.KeysByLastUse | corefs-1.5/src/fs/list.c:27-228 | with keys of one length and no insert of a key that is there, every key is in the list once and stands at its own last use |
| LruSpec.LookupAfter | corefs-1.5/src/fs/list.c:102-173 | a lookup finds what was inserted or changed last, and no operation on another key disturbs it |
| LruSpec.WithoutDropped | corefs-1.5/src/fs/list.c:231-251 | dropping one entry that carries the pointer does not change what is left without the pointer |
| LruSpec.WithoutIs | corefs-1.5/src/fs/list.c:231-251 | what is left without the pointer are the other entries, each at the place that the number of others before it gives |
| LruList.List.constructor | corefs-1.5/src/fs/list.c:13-25 | an empty chain |
| LruList.List.Unlink | corefs-1.5/src/fs/list.c:212-219 | takes one node out of the chain and keeps it doubly linked with the tail at its end |
| LruList.List.PushFront | corefs-1.5/src/fs/list.c:93-97 | links a node in behind the head and keeps the chain doubly linked |
| LruList.List.InsertBelow | corefs-1.5/src/fs/list.c:71-97 | below capacity: the new entry in front, everything else as it was, the count one higher |
| LruList.List.InsertFull | corefs-1.5/src/fs/list.c:45-97 | at capacity, as written: the last node carries the new key, length and data and is in front, the other 99 keep theirs, each node leads to the next, and the new tail back to the front |
| LruList.List.LoopedIsNoChain | corefs-1.5/src/fs/list.c:66-69 | that state is a chain for no sequence of nodes |
| LruList.List.Insert | corefs-1.5/src/fs/list.c:27-100 | refuses long keys, otherwise takes the branch for a free or for a full list |
| LruList.List.InsertEvicting | corefs-1.5/src/fs/list.c:45-97 | the intended eviction: exactly the last entry goes, the new one is first, the length stays 100 |
| LruList.List.FindNode | corefs-1.5/src/fs/list.c:114-120 | the first node whose key is equal in length and content |
| LruList.List.MoveToFront | corefs-1.5/src/fs/list.c:121-133 | the node moves to the front, the others keep their order |
| LruList.List.Get | corefs-1.5/src/fs/list.c:102-140 | returns the data of the first entry with just this key and the length of the key, with that entry in front and the others in order; -1 and nothing changed when there is none |
| LruList.List.Change | corefs-1.5/src/fs/list.c:142-173 | the first entry with just this key is in front with the new data, the others in order; -1 and nothing changed when there is none |
| LruList.List.Remove | corefs-1.5/src/fs/list.c:203-228 | takes out the first entry whose key starts with the bytes given, and no other; -1 when there is none |
| LruList.List.RemovePtr | corefs-1.5/src/fs/list.c:231-251 | takes out all and only the entries that carry the pointer, in one pass, and keeps the order of the rest |
| LruList.List.Free | corefs-1.5/src/fs/list.c:254-269 | an empty list |
| Decimal.AtoiPrinted | corefs-1.5/src/fs/server.c:1318 | reading undoes printing, so different numbers print differently |
| Decimal.DigitAt | corefs-1.5/src/fs/server.c:1303 | character number i from the right of a printed number is its decimal digit for 10 to the i |
| Decimal.NoLeadingZero | corefs-1.5/src/fs/server.c:1303 | and the first one is not a zero, the number zero aside |
| Decimal.Clipped | dd.c:580-584 | of a printed number the first nine characters are kept |
| Decimal.ClippedRoundTrip | dd.c:580-584 | a number printed into ten bytes is read back unchanged if and only if it needs at most nine characters |
| SelectLoop.FdKeyInjective | corefs-1.5/src/fs/server.c:1317-1318 | different descriptors have different ten-byte keys |
| SelectLoop.FdKeyIs | corefs-1.5/src/fs/server.c:1302-1303 | the key of a descriptor is its decimal digits with zeros behind them up to ten bytes |
| SelectLoop.FreeSlot | corefs-1.5/src/fs/server.c:1285-1290 | with fewer clients than slots the slot search succeeds |
| SelectLoop.ContextFound | corefs-1.5/src/fs/server.c:1350-1352 | the list gives every client the context with its own descriptor |
| SelectLoop.ContextCount | corefs-1.5/src/fs/server.c:1332-1334 | there are exactly as many contexts as clients |
| SelectLoop.PassEnds | corefs-1.5/src/fs/server.c:1385-1388 | leaving the slot loop early, when no ready descriptor is left, or at its end loses none of them |
| SelectLoop.Server.constructor | corefs-1.5/src/fs/server.c:1208-1215 | slots, read set, marks and list agree before the first iteration |
| SelectLoop.Server.FindSlot | corefs-1.5/src/fs/server.c:1285-1290 | the first free slot, or the number of slots when there is none |
| SelectLoop.Server.Accept | corefs-1.5/src/fs/server.c:1236-1334 | a new client gets a slot, a context and a place in the read set, and all of them still agree; the hundred-and-first makes the chain of the context list a cycle |
| SelectLoop.Server.Serve | corefs-1.5/src/fs/server.c:1347-1383 | a ready client gets its own context; one that has gone is cleared from slot, read set and list, and all still agree |
| SelectLoop.Server.ServeAll | corefs-1.5/src/fs/server.c:1341-1391 | every ready client is served exactly once and in the order of the slots, and exactly those that have gone leave the read set |
| SelectLoop.Server.Iterate | corefs-1.5/src/fs/server.c:1217-1395 | one iteration keeps the agreement; every client ready at select is served once and a client accepted in it is not served; it ends on a failed accept, or with a cycle in the list when a hundred clients were connected |
| NamespaceSpec.SearchAgrees | dd.c:170-243 | a search that succeeds depends only on the nodes up to the one it finds |
| NamespaceSpec.AddKeepsReplayable | dd.c:299-322 | in a tree with one node called home, addnode at any location that resolves, and does not come back to the root, keeps the tree such that replaying its preorder hangs every node where it is |
| NamespaceSpec.AddReplayableIff | dd.c:273-322 | and it does so if and only if the location does not come back to the root by its last component, or comes back to it behind at most one of its children |
| NamespaceSpec.SearchSame | dd.c:170-297 | what search and searchlast find does not depend on the numbers of the nodes |
| NamespaceSpec.AddedRebuilt | dd.c:299-322 | after an addition to any tree that a replay keeps, at any location that resolves, a rebuild gives the tree back, loses a node or ends on a null pointer, according to how the location resolves among the nodes that the addition has left |
| NamespaceSpec.AddRebuiltIff | dd.c:626-712 | with one node called home a rebuild after such an addition gives the tree back, up to numbering, if and only if the location does not come back to the root or does so behind at most one of its children, and otherwise ends on a null pointer |
| NamespaceSpec.OneHomeAdded | dd.c:299-322 | a tree with one node called home stays one unless the new node is called so, so these results apply again |
| NamespaceSpec.AddKeepsInFolders | dd.c:397-445 | adding to folders keeps every location that of a folder |
| NamespaceSpec.RemoveKeepsInFolders | dd.c:324-344 | removing a file keeps every location that of a folder and the tree replayable |
| NamespaceSpec.RebuildsTheTree | dd.c:626-712 | replaying the preorder of any tree whose nodes are placed behind their predecessors by their own locations rebuilds it up to numbering |
| NamespaceSpec.RebuiltInFullIff | dd.c:626-712 | for any tree, a replay loses no node if and only if every node is placed behind its predecessor by its own location |
| NamespaceSpec.RenumberedIs | dd.c:320-321 | the rebuilt nodes differ only in their numbers, and the parent number of a node is the number of its predecessor |
| NamespacePaths.StepsOfJoined | dd.c:43-106 | names come back from the path they are joined into unless one but the last is a single letter |
| NamespacePaths.JoinedOfSteps | dd.c:43-106 | a path whose steps hold no slash is its steps joined, none of them but the last a single letter |
| NamespacePaths.HomeAgainStopsRebuild | dd.c:626-712 | for any two folder names of more than one letter, an entry added at home/a/b/home takes the place of what hung under the first folder, and the rebuild, which gave the tree back before, then ends on a null pointer |
| NamespacePaths.WayLeads | dd.c:192-243 | following the names of the folders on the way leads to the node |
| NamespacePaths.OnlyWayLeads | dd.c:192-243 | no other names lead there |
| NamespacePaths.SearchFinds | dd.c:170-243 | search finds a node for exactly its own path without one-letter folders, and for a child of the root also its bare name |
| NamespacePaths.EveryNodeIsFound | dd.c:170-243 | every node is found under its own path when siblings differ and no folder name is a single letter |
| Splitting.TokensOfTerminated | dd.c:648-700 | fields that are neither empty nor contain a separator are read back as they were written |
| NamespaceText.RecordRoundTrip | dd.c:563-610 | a record is read back from its line if and only if all its numbers print in nine characters |
| NamespaceText.LineIs | dd.c:563-608 | the line of a record, written out: fifteen fields in their order, each with a comma behind it, and the mark ENDD |
| NamespaceText.TextGrows | dd.c:563-624 | the text of a tree is the lines of its nodes, each with a newline behind it |
| NamespaceText.FileRoundTrip | dd.c:535-712 | the same for a whole file |
| NamespaceText.RecoveredIsRebuilt | dd.c:563-712 | what recovery makes of a dump is what a replay makes of the tree, for any tree whose fields fit in a line |
| NamespaceText.DumpRecovers | dd.c:563-712 | dump and recovery give any tree that a replay keeps back, renumbered |
| Namespace.FindFch | dd.c:71-81 | one behind the first occurrence, or -1 |
| Namespace.CStrCpy | dd.c:43-66 | copies one character more than asked, and everything when asked for none |
| Namespace.ParserPath | dd.c:86-94 | what stands before the first slash, but the whole path when that is one letter |
| Namespace.RemovePath | dd.c:99-107 | what follows the first slash |
| Namespace.Space.FolderIsLast | dd.c:299-344 | a folder is the last of its siblings, and the prev of a node is its parent just when it is a folder |
| Namespace.Space.constructor | dd.c:146-164 | a tree of the head alone |
| Namespace.Space.WalkSiblings | dd.c:206-218 | the first sibling with the name, following the next pointers |
| Namespace.Space.SearchLoc | dd.c:192-243 | on the linked nodes, the recursion on the path gives the node that the names lead to, none, or a null dereference; it ends because the path gets shorter |
| Namespace.Space.SearchPath | dd.c:170-188 | search on the linked nodes |
| Namespace.Space.SearchLast | dd.c:273-297 | the last child of the node found, or the node itself |
| Namespace.Space.AddNode | dd.c:299-322 | the new node is hung there with its numbers, what was behind is gone, and a folder is still the last of its siblings |
| Namespace.Space.Hang | dd.c:306-318 | prev, next and fold stay consistent, whether the node hangs under a folder or behind a file |
| Namespace.Space.AddEntry | dd.c:397-445 | the node added is the last of the tree and has just the name, location and kind given, the data node first among its replicas and none else, 1 and zeros for their states, and the next number; it hangs behind the last child of the folder, or on the node itself; false if and only if the location leads nowhere |
| Namespace.Space.RemoveFile | dd.c:324-344 | takes out just that node if and only if it is a file with a next sibling; otherwise null is dereferenced |
| Namespace.PrintRecord | dd.c:563-606 | one line: all fields in order, each followed by a comma |
| Namespace.Space.RecurseStore | dd.c:563-624 | appends the lines of the subtree in preorder, fold before next |
| Namespace.Space.StoreList | dd.c:535-561 | appends the text of the tree to what the file holds |
| Splitting.NextToken | dd.c:644-648 | the next field behind any separators, as strtok and fscanf cut it |
| NamespaceRecovery.ParseRecord | dd.c:648-700 | the record of a line, or nothing when a field is missing |
| NamespaceRecovery.RecoverLine | dd.c:675-702 | one line hung into the tree, or a failure of the whole recovery |
| NamespaceRecovery.RecoverList | dd.c:626-712 | builds on the heap exactly the tree that the records of the text replay to, or ends on a null pointer exactly when they do not |
| NamespaceRuns.RunKeepsInv | dd.c:299-445 | over every run of additions to folders and removals, from any state that has it: names, locations, placement, the root and field ranges |
| NamespaceRuns.RunSurvivesRestart | dd.c:535-712 | after every such run the dump, read back in a new process, gives the same tree up to numbering |
| NamespaceRuns.AnyAdditionSurvivesIff | dd.c:535-712 | after such a run and one more addition at any location that resolves, to a folder or not, the dump gives the tree back if and only if the location does not come back to the root or does so behind at most one of its children, and otherwise its recovery ends on a null pointer |
| NamespaceRuns.RebornInv | dd.c:626-712 | the rebuilt and renumbered tree has the invariant again |
| NamespaceRuns.LivesSurviveRestart | dd.c:535-712 | however many processes there have been, each beginning with the dump of the one before, the dump of the last gives its tree back |
| NamespaceRuns.RunKeepsNumbers | dd.c:299-322 | in the first process every node has a higher number than those before it in preorder |
| NamespaceRuns.RebornNumberedIff | dd.c:626-712 | after a restart this holds if and only if the counter starts no lower than the number of the root, or the root is alone |
| NamespaceRuns.TwoDumpsRecovered | dd.c:535-712 | the file is appended to: what comes back from the dumps of any two trees in one file are the records of the second, its root included, hung one after the other on the first tree |
| NamespaceRuns.SecondDumpIsFatal | dd.c:535-712 | a second dump, of whatever tree, makes the recovery end on a null pointer when the location of its root leads nowhere in the first |
| NamespaceRuns.SecondHeadFailsIff | dd.c:535-712 | the root of the second dump cannot be added if and only if its location leads nowhere in the first tree |
| NamespaceRuns.SecondDumpMayRecover | dd.c:535-712 | with a folder named as the location of the root is, and one more node of the root, two dumps in one file give the tree back |
| NamespaceRuns.FolderCalledRoot | dd.c:146-164 | there is such a tree, with the root that ninitialize makes |
| NamespaceRuns.Initialize | dd.c:146-164 | the root alone, with its name, location, numbers and replicas |
| NamespaceRuns.Perform | dd.c:324-445 | one addition or removal on the linked nodes is the step of the run, or the null dereference; told field by field, the addition of a file adds a file and that of a folder a folder, where the location leads, and a removal takes out just the node |
| NamespaceRuns.Continue | dd.c:324-445 | a process that has come through a run and performs one more operation of the kind a run admits has come through the longer run |
| NamespaceRuns.Restart | dd.c:535-712 | a process with the invariant dumps its linked nodes into a fresh file; the next one links the same tree from it, renumbered, its counter stands where the additions have left it, and it has the invariant |
| NamespaceSearch.EveryRunFindsAll | dd.c:170-445 | after every run of additions at any locations and of removals, in which names are free where they are hung, every node is found under its own path |
| NamespaceSearch.SearchBelow | dd.c:192-243 | a search one name below a node dereferences null if and only if the node is a file or an empty folder; otherwise it finds the child with the name, or nothing when there is none |
| NamespaceSearch.SearchCrashesIff | dd.c:170-243 | for any path at all, search dereferences null if and only if the path goes one name below a file or an empty folder |
| NamespaceSearch.FileFoundIff | dd.c:299-421 | a file added at the path of a folder is found under that path if and only if no child of the folder is a folder |
| NamespaceSearch.RunTwoFiles | dd.c:397-421 | after every such run, two files added to a folder without folders are siblings at the end of the tree, with the fields given, and each is found under the path of the folder |
| NamespaceSearch.TwoInHome | dd.c:722-730 | on the linked nodes: two files added to the root, the second found by search, linked to the first |
| AttrCache.FindIsNewest | corefs-1.5/src/fs/corefs.c:50-65 | a lookup hits if and only if the newest store of the path is among the last 64 and not removed since, and gives its attributes |
| AttrCache.StoreRefines | corefs-1.5/src/fs/corefs.c:86-106 | a store keeps ring and log together |
| AttrCache.RemoveRefines | corefs-1.5/src/fs/corefs.c:69-84 | so does a removal |
| AttrCache.RunRefines | corefs-1.5/src/fs/corefs.c:37-151 | so does every run of getattr and removal on paths shorter than 128 |
| AttrCache.CacheIsTransparent | corefs-1.5/src/fs/corefs.c:134-151 | after any such run a getattr reports the last stored answer for exactly as long as 64 stores, and calls through otherwise |
| AttrCache.OneSlotEach | corefs-1.5/src/fs/corefs.c:37-106 | no path is in two valid slots |
| AttrCache.LongPathNeverHits | corefs-1.5/src/fs/corefs.c:50-106 | after any run whatever, a getattr of a path of 128 or more characters calls through |
| AttrCache.LongPathAnswersForAnother | corefs-1.5/src/fs/corefs.c:86-106 | and after any run its answer is reported for its first 127 characters, if and only if no slot before the next one of the ring holds them; else that slot is reported |
| AttrCache.Cache.Initialize | corefs-1.5/src/fs/corefs.c:37-46 | all slots invalid, the ring at its start |
| AttrCache.Cache.Lookup | corefs-1.5/src/fs/corefs.c:50-65 | the attributes in the first slot in use with the path, or the ones passed in when there is none; nothing changes |
| AttrCache.Cache.RemovePath | corefs-1.5/src/fs/corefs.c:69-84 | the first slot in use with the path is no longer in use; nothing else changes |
| AttrCache.Cache.Store | corefs-1.5/src/fs/corefs.c:86-106 | the next slot of the ring holds at most 127 characters of the path, and the attributes; nothing else changes |
| AttrCache.Cache.Fetch | corefs-1.5/src/fs/corefs.c:141-151 | from the cache, or from the underlying call, whose success is stored |
| AttrCache.Cache.GetAttributes | corefs-1.5/src/fs/corefs.c:134-160 | from the first slot with the path, or else from the underlying call, whose success is stored as it was answered; of what is reported each of uid, gid and permission bits is overridden if and only if that is configured, and the kind bits and the rest stay |
| NameNode.TurnKeeps | socket_command.c:374-655 | every command, whatever data nodes and network answer: recorded replicas are registered data nodes, and an entry other than the data-node root is on one of them only |
| NameNode.RunKeeps | socket_command.c:343-655 | the same over every run |
| NameNode.RouteIsOnly | list.c:95-121 | a request for a known entry is routed to the one data node that the entry is on |
| NameNode.RouteIs | list.c:95-121 | a path without an entry goes to the first data node that was marked alive and answered, those before it being marked dead; one with an entry to the first synchronised replica whose node answers, or else to the first other one; none if and only if no candidate answered |
| NameNode.RoutedAnswers | list.c:95-121 | so the node returned answered the last probe made |
| NameNode.TurnIs | socket_command.c:374-655 | what each message does, told field by field: only open, write, mkdir and mknod record the path, at the node forwarded to; a failed send ends the loop for getattr only; a registration marks the node alive or appends it |
| NameNode.RecordsAreRecordings | list.c:52-93 | from empty tables on, over every run, an entry uses as many records, from the front, as registrations or recorded requests have found it |
| NameNode.OverrunIff | list.c:80-88 | after every run a message writes past the fifty records of an entry if and only if it is the fifty-first to be recorded in it |
| NameNode.FirstRequestPlaces | socket_command.c:446-468 | a first recorded request places the path where it was sent |
| NameNode.RoutingIsSticky | socket_command.c:374-655 | over any later run every request for that path goes to that data node or nowhere |
| NameNode.Tables.SearchFile | list.c:333-360 | the first entry with the name, or with the name less a final slash |
| NameNode.Tables.SearchNode | list.c:309-331 | the first data node with the name |
| NameNode.Tables.CreateNum | list.c:133-144 | the first free record, or -1 |
| NameNode.Tables.FetchNum | list.c:146-174 | the first record in use whose node answered, in the last probe made, or -1 when every one of them did not answer; because replicas are registered the search for the node never fails |
| NameNode.Tables.FetchNode | list.c:362-390 | the first data node that was marked alive and answered, in the last probe made; every one before it was dead or did not answer, and is marked dead; the others are as they were |
| NameNode.Tables.GetFileNode | list.c:95-121 | the route of a path, by its entry or else to the first live data node; a node that is returned answered the last probe made |
| NameNode.Tables.InsertFile | list.c:52-93 | the first free record of the entry of the name is in use for the data node, or there is a new entry with its first record in use; false if and only if all records of the entry are in use |
| NameNode.Tables.InsertNode | list.c:274-307 | one more data node, or a known one alive again, and a record in the data-node root |
| NameNode.Tables.Handle | socket_command.c:374-655 | one message changes the tables as told above and keeps the invariant; a request is forwarded to a node that answered the last probe made |
| GetattrReply.AttributesArrive | socket_command.c:1703-1768 | thirteen attributes arrive if and only if each prints in nine characters, so times after September 2001 do not |
| GetattrReply.ErrorArrives | socket_command.c:1694-1702 | the error number of a failed call arrives negated if and only if it prints in nine characters |
| GetattrReply.ReplyIs | socket_command.c:1691-1769 | the reply, written out: result and error number, and for a successful call the thirteen attributes in their order, with commas between |
| GetattrReply.ReadIs | client.c:78-128 | which field of a reply each attribute is read from, and when it is an error or a null field instead |
| GetattrReply.SendResponseGetattr | socket_command.c:1691-1769 | the buffer built step by step is the reply |
| GetattrReply.MyGetattr | client.c:78-128 | the fields taken one by one give the outcome, an error return before the attributes are read |

## Left out

- Sockets, select, accept, fork, threads, sleeps, name resolution, FUSE callbacks, command lines, printing and logging.
- The file operations of the operating system: their results are parameters of the handlers.
- C layout, unions, allocation and freeing, and the fixed sizes of the text buffers of dd.c and socket_command.c.
- Framing.Pipe: recv that fails with an error is the same as a stream that ends early.
- PacketCode.EncapRequest: the raw branch copies `payload_size` less the position; the model stores the data, which is as long as that in every packet of the build functions (`PacketCode.DataSize`).
- PacketCode.EncapResponse: the same holds for the data of a reply (`PacketCode.ResponseSizes`).
- Server.HandleCommand: replies are whole packets; that they cross the byte stream whole is proved apart, in `Endpoint.SendResponse` and `Endpoint.CompleteReply`, and up to the caller in `Calls.Call`; a failed send of a reply is not followed up.
- Server.HandleCommand: the attribute handlers are those of a build with extended attributes; the upper-layer hooks other than the access check are not modelled.
- Server.CutData: data packets without supplementary gids, which are the only ones the client builds.
- Readdir.DoReaddir: error numbers of a refusal are not negative, and no connection breaks. The page limit may be anything up to the one of server.c:480, which is larger than the buffers.
- Readdir.HandleReaddir: type bytes of 128 and more, which a signed `char` would read as negative, are excluded.
- Client.DoWrite: data of more bytes than the buffer holds behind the widest command, which FUSE never hands over.
- Calls.Call: a page or data larger than the buffer of the client, on which the client leaves its buffer; error numbers that are not positive are followed only up to the value received (`Calls.AnswerReaches`), as no system call gives them.
- Calls.DoWholeWrite: users have no supplementary gids, which `my_get_user_info` never sets.
- Server.HandleWrite: which bytes the write call of the operating system is given is the `data` of `Server.ReceiveData`; the file itself is not modelled.
- Session.UnreadReplies: no connection fails during the run, and one client talks to the server.
- LruSpec.RecencyOrder: evictions are the intended ones; what the code does to a full list is `LruList.List.InsertFull`. The result is about the code as written as long as no key is inserted into a full list.
- LruSpec.LastIsLeastRecent: the same.
- LruList.List.InsertEvicting: the intended relinking, which the code does not perform.
- LruList.List.Insert: nothing is said about operations after the branch for a full list has made the chain a cycle; the variant for a list of length one is not modelled.
- LruList.List.Remove: `delete_info` does the same relinking and then frees, and has no member of its own.
- LruList.List.Remove: keys shorter than the bytes compared, where memcmp reads past the key, are excluded.
- SelectLoop.Server.Accept: the descriptors of the operating system are below FD_SETSIZE and not in use.
- SelectLoop.Server.Iterate: select itself does not fail, and nothing is said about what follows once the list is a cycle.
- SelectLoop.Server.Iterate: the packet of a client is handled by the modules above; here it is only read or missing.
- Namespace.CStrCpy: the copy of a whole string reads past its end; only the C string it produces is modelled.
- Namespace.Space.RemoveFile: nothing is said about the tree after null has been dereferenced.
- `removefold` and `getdatanode` of dd.c: the first dereferences a null pointer, the second has no callers left.
- Decimal.Atoi: white space in front and numbers beyond an `int`, which no printer here produces.
- NamespaceRecovery.RecoverList: an empty file leaves a null head, which is not told apart from a process that has ended.
- AttrCache.Cache.GetAttributes: the permission override holds permission bits only, as the configured value does.
- NameNode.Tables: the two append-only linked lists are sequence fields, and the fixed arrays of an entry are sequences updated in place; the uninitialised `next` of a new entry is taken as null. A write past the fifty records ends the model (`NameNode.OverrunIff` says when).
- NameNode.Turn: a message without a path field, on which the code passes a null pointer on.
- `remove_datanode`, `remove_fileentry`, the replication, monitor and ping files, and the textual readdir and truncate messages, whose writer and reader disagree.
- GetattrReply.MyGetattr: the conversion of the numbers read to the unsigned field types of `struct stat`.
