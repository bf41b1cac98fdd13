# Verification of topcall's framing, load table and allocation protocol

A Dafny model of three parts of topcall, with proofs of what they keep over whole runs.

- **Byte stream to packets.** `Wire` and `Packet` are the wire format and its `Pack`/`Unpack`
  cursors, `Packets` some packets and the Android login encoder, `Framing` and `ProtoLink` the
  client's reassembly buffer, `SwitchedOrder` what its change of byte order does, `ReadLoop` the
  servers' read loop, `EndToEnd` all of them together.
- **Load table.** `LoadTable` says what a report and a query mean by a scan of all rows, `LTable` is
  the table of shared row objects in score buckets, `Replication` a master with its slaves.
- **Pre-allocation.** `Groups` is the choice of a media group, `MCenter` the centre's objects and
  handler, `Proxy` and `MCProxy` a proxy's cache and handlers, `Alloc` one centre and any number of
  proxies over FIFO links, `History` what their runs owe to the reports and requests made. `Keys` and `Masks` are the printed keys and ISP masks they share.

Objects the C++ and Java code updates in place are classes here, and each of their methods is proved
against a function on values; the theorems are about those functions and about every run of them.
Iteration over a `std::map` or `std::set` takes the least remaining key. C++ `int` arithmetic that
would overflow is excluded where it is undefined, and division truncates.

Four properties turned out not to hold as the code seems to intend. Each has its exact condition,
and a concrete input that breaks it:

- The frames a stream yields do depend on how it is cut when a bad header is met
  (`Framing.CutIndependentExactly`, `Framing.ResetShowsTheCut`).
- `shuffer()` sets the buffer to little-endian although every sender writes big-endian, so the
  client loses packets when it is called too early. For every stream of whole packets and every cut
  into TCP reads, `SwitchedOrder.AsWrittenExactly` says when all are handed on, and
  `SwitchedOrder.EveryCutExactly` which packets are handed on under every cut
  (`EndToEnd.LoginCutAndLost` is one that is not). Theorems about a link that keeps big-endian say so.
- The servers' length decoding works exactly below 128 bytes (`ReadLoop.ShortPacketsExactly`,
  `EndToEnd.LoginThatNeverEnds`).
- A row whose capacity is zero or negative is never returned, though a negative load gives it room
  (`LoadTable.RoomIsSearched`, `LoadTable.RoomNotFound`).

Where comments and code differ, the code is followed: a group counts as lightly loaded when the
truncated quotient load_max/load is at least 3, not below 30% (`packages/media/mcenter_d/src/grplist.cpp:34-36`),
and the `[bugbug]` note about the second area (`packages/media/mcenter_d/src/grpmgr.cpp:203-204`) is
`Groups.SecondAreaRedundant`.

## Model

| member | source | states |
|---|---|---|
| Framing.CutIndependence | packages/client/andsdk/src/com/topcall/andsdk/protobase/ProtoLink.java:71-126 | read in one byte order, either one: however a stream with only good headers is cut into chunks, the frames handed on and the bytes left buffered are those of the uncut stream |
| Framing.CutIndependentExactly | packages/client/andsdk/src/com/topcall/andsdk/protobase/ProtoLink.java:87-125 | the exact condition, for either byte order kept throughout: a stream behaves the same under every cut into TCP reads if and only if no bad header is met, or the bad header is discovered with the stream's very last byte (eleven bytes unread) |
| Framing.ResetShowsTheCut | packages/client/andsdk/src/com/topcall/andsdk/protobase/ProtoLink.java:97-103 | a stream on which the cut shows: twelve zero bytes are all discarded in one read, and leave one behind when read as eleven and one |
| Framing.ParseConserves | packages/client/andsdk/src/com/topcall/andsdk/protobase/ProtoLink.java:87-125 | delivered frames followed by the unread bytes are the stream itself |
| Framing.FramesAreWhole | packages/client/andsdk/src/com/topcall/andsdk/protobase/ProtoLink.java:91-116 | every frame handed on has 1 byte to 8 MiB and is as long as its own first four bytes say |
| Framing.DroppedWhereBad | packages/client/andsdk/src/com/topcall/andsdk/protobase/ProtoLink.java:97-112 | the unread bytes are dropped exactly where a length is not positive or over 8 MiB; otherwise more than ten of them wait for the rest of their packet |
| Framing.PacketsSurviveAnyCut | packages/client/andsdk/src/com/topcall/andsdk/protobase/ProtoLink.java:87-125 | read big-endian throughout, concatenated packets of 8 to 8096 bytes come out whole and in order under every cut; only a last packet of at most ten bytes stays buffered |
| Framing.FrameUris | packages/client/andsdk/src/com/topcall/andsdk/protobase/ProtoLink.java:91-92 | the uri handed on with a frame is that frame's own second int |
| ProtoLink.ProtoLink.OnData | packages/client/andsdk/src/com/topcall/andsdk/protobase/ProtoLink.java:71-126 | a read leaves the link, its buffer offset, capacity and byte order, and the handler's input, exactly as the value-level receive loop says; the bounds hold again afterwards |
| ProtoLink.ProtoLink.Receive | packages/client/andsdk/src/com/topcall/andsdk/protobase/ProtoLink.java:78-85 | the chunk ends up behind the pending bytes, in a doubled buffer if there was no room, and put never overruns it |
| ProtoLink.ProtoLink.NextFrame | packages/client/andsdk/src/com/topcall/andsdk/protobase/ProtoLink.java:87-125 | one turn of the loop hands on the next frame of the pending bytes and strictly shortens them, or stops |
| ProtoLink.ProtoLink.Shuffer | packages/client/andsdk/src/com/topcall/andsdk/protobase/ProtoLink.java:139-149 | compaction and growth move the pending bytes to the front unchanged, in a new buffer of the given size and order |
| ProtoLink.RunBounds | packages/client/andsdk/src/com/topcall/andsdk/protobase/ProtoLink.java:78-149 | over every run of TCP reads: offset at most 10000, everything inside the buffer, capacity never shrinking and below 2*(8 MiB + 128 KiB), so doubling it cannot overflow |
| ProtoLink.RunConserves | packages/client/andsdk/src/com/topcall/andsdk/protobase/ProtoLink.java:71-126 | on every run without a reset, as written, bytes delivered plus bytes buffered are the bytes received |
| ProtoLink.DrainIsParse | packages/client/andsdk/src/com/topcall/andsdk/protobase/ProtoLink.java:87-125 | with one byte order, offsets, sliding, compaction and growth are invisible: the loop is the plain parse |
| ProtoLink.RunIsArrive | packages/client/andsdk/src/com/topcall/andsdk/protobase/ProtoLink.java:71-126 | the same over whole runs |
| SwitchedOrder.PacketsDelivered | packages/client/andsdk/src/com/topcall/andsdk/protobase/ProtoLink.java:71-126 | every packet of a Pack-based peer is delivered, whole and in order, under every cut if shuffer() kept big-endian; and as written whenever shuffer() is not called too early |
| ProtoLink.CutsAgreeExactly | packages/client/andsdk/src/com/topcall/andsdk/protobase/ProtoLink.java:71-126 | the exact condition of cut independence for the link with its real buffer, taking shuffer() to keep big-endian |
| SwitchedOrder.AsWrittenExactly | packages/client/andsdk/src/com/topcall/andsdk/protobase/ProtoLink.java:71-149 | as written, with the little-endian order shuffer() sets, on every stream of whole packets and every cut of it into TCP reads: all packets are delivered if and only if shuffer() is never called while more than ten bytes are still to be handed on |
| SwitchedOrder.UnswitchedIsBig | packages/client/andsdk/src/com/topcall/andsdk/protobase/ProtoLink.java:71-149 | on any stream, whatever its headers, a link on which shuffer() is not called too early does exactly what one that keeps big-endian does |
| SwitchedOrder.SplitExactly | packages/client/andsdk/src/com/topcall/andsdk/protobase/ProtoLink.java:107-112 | one packet in two reads is delivered as written if and only if the first read holds at most ten bytes of it, or all of it |
| SwitchedOrder.EveryCutExactly | packages/client/andsdk/src/com/topcall/andsdk/protobase/ProtoLink.java:71-149 | which packets are delivered as written under every cut: exactly those sequences with no packet over eleven bytes, and none ending past offset 10000 with more than ten bytes behind it |
| SwitchedOrder.SwitchedLoses | packages/client/andsdk/src/com/topcall/andsdk/protobase/ProtoLink.java:139-149 | a link that has been switched with more than ten bytes of whole packets ahead never recovers: no frame at all, or a first one of at least 65536 bytes, or at least eleven bytes lost |
| ReadLoop.Connection.ReadCb | packages/base/loadtable_d/src/netlistener.cpp:58-95 | draining an evbuffer hands the handler exactly the messages of the value-level loop and leaves exactly its rest, and reports a loop that would not end or would copy past the handler's buffer |
| ReadLoop.CutsDoNotMatter | packages/base/loadtable_d/src/netlistener.cpp:72-94 | whatever the bytes and the cut: the messages handled, how the loop ends (returning, never, or past the 128 KiB buffer), and the bytes left over when it returns, are those of the uncut stream |
| ReadLoop.LengthRightBelow128 | packages/base/loadtable_d/src/netlistener.cpp:81 | the signed, wrongly shifted length is the packet's length if and only if the packet is shorter than 128 bytes |
| ReadLoop.ShortPacketsExactly | packages/base/loadtable_d/src/netlistener.cpp:71-94 | the messages handled are the packets sent if and only if every packet is shorter than 128 bytes, under every cut; for those the loop always returns and nothing is left over |
| ReadLoop.SpinsAt256 | packages/base/loadtable_d/src/netlistener.cpp:81-88 | a packet of 256 bytes decodes to length 0 and the loop never ends |
| ReadLoop.EndingExactly | packages/base/loadtable_d/src/netlistener.cpp:71-94 | on any bytes the messages handled and the bytes left are the stream, and the decoded length of what is left says how the loop ended: 0, over 128 KiB, or more than there is |
| ReadLoop.LongPacketFate | packages/base/loadtable_d/src/netlistener.cpp:81-91 | every packet of 128 bytes or more, by the low byte of its length: from 128 on the loop waits, at 0 it never ends, and otherwise that many bytes are handled as a message and the reading goes on inside the packet |
| Wire.Int32RoundTrip | include/core/packet.h:64-69 | every signed 32-bit value survives the split into four bytes |
| Wire.Int16RoundTrip | include/core/packet.h:71-74 | every signed 16-bit value survives the split into two bytes |
| Wire.StringRoundTrip | include/core/packet.h:139-148 | a counted string is read back and the cursor ends behind it |
| Wire.StringStaysInside | include/core/packet.h:139-148 | a string never reaches past the length the header announced; a count beyond it yields the empty string and skips the count only |
| Wire.UsersRoundTrip | include/protocol/pmproxy.h:130-146 | a list of records is read back record by record |
| Wire.RoundTrip | include/core/packet.h:119-148 | any sequence of ints, shorts, bytes, strings, int lists and record lists, written anywhere in a buffer, is read back field for field, consuming exactly the bytes written |
| Wire.EncodingInjective | include/core/packet.h:64-88 | two packets of one layout with equal bytes carry equal fields |
| Packet.PacketRoundTrip | include/core/packet.h:42-50 | a packed packet begins with its own length, service and uri, and unpacks to its fields with nothing left over |
| Packet.Pack.PushInt32 | include/core/packet.h:64-69 | exactly the four big-endian bytes at the cursor change |
| Packet.Pack.PushString | include/core/packet.h:80-88 | exactly the length and the characters at the cursor change |
| Packet.Pack.PushInts | include/protocol/plogin.h:138-141 | the loop writes the count and then every element in order |
| Packet.Pack.PushUsers | include/protocol/pmproxy.h:130-137 | the loop writes the count and then every record in order |
| Packet.Pack.Finish | include/core/packet.h:42-50 | the header overwrites the first eight bytes and nothing of the body; so a body that encodes some fields becomes the packet of those fields |
| Packet.Unpack.PopHead | include/core/packet.h:113-117 | length, service and uri are taken from the first eight bytes |
| Packet.Unpack.PopString | include/core/packet.h:139-148 | the string at the cursor, or the empty string when its length exceeds what the header announced |
| Packet.Unpack.PopInts | include/protocol/plogin.h:126-129 | the loop reads exactly the counted ints, none for a negative count |
| Packet.Unpack.PopUsers | include/protocol/pmproxy.h:138-146 | the loop reads exactly the counted records |
| Packets.PLoginReq.Marshall | include/protocol/plogin.h:42-46 | writes exactly the encoding of the login's fields at the cursor |
| Packets.PLoginReq.Unmarshall | include/protocol/plogin.h:36-40 | the fields become what decoding at the cursor yields |
| Packets.PSyncUidsReq.Marshall | include/protocol/plogin.h:137-147 | writes exactly the encoding of the two counted lists, added ids first as the decoder expects (Packets.SyncUidsReceived) |
| Packets.PSyncUidsReq.Unmarshall | include/protocol/plogin.h:125-135 | appends exactly the two lists that decoding yields |
| Packets.PMPJoinRes.Marshall | include/protocol/pmproxy.h:165-171 | writes exactly the encoding of three ints and the list of users |
| Packets.PMPJoinRes.Unmarshall | include/protocol/pmproxy.h:157-163 | three ints are set and the decoded users appended |
| Packets.LoginReceived | include/protocol/plogin.h:36-46 | uid, passport and password, marshalled, packed, unpacked and unmarshalled, arrive as sent |
| Packets.SyncUidsReceived | include/protocol/plogin.h:125-147 | ids to add and ids to remove, marshalled, packed, unpacked and unmarshalled, arrive as sent, each in its own list |
| Packets.JoinReceived | include/protocol/pmproxy.h:157-171 | result, session, user and every user online, marshalled, packed, unpacked and unmarshalled, arrive as sent |
| Packets.ProtoPacket.PushString16 | packages/client/andsdk/src/com/topcall/andsdk/protobase/ProtoPacket.java:161-171 | the Java string push writes what the C++ one does for ASCII strings; null is the empty string |
| Packets.ProtoPacket.Marshall | packages/client/andsdk/src/com/topcall/andsdk/protobase/ProtoPacket.java:24-34 | the packet is its length, its uri and its body |
| Packets.JavaUri | packages/client/andsdk/src/com/topcall/andsdk/protobase/ProtoPacket.java:27-28 | the client's packed uri has the bytes of service and uri |
| Packets.JavaLogin | packages/client/andsdk/src/com/topcall/andsdk/login/proto/PLoginReq.java:12-21 | the Android login is byte for byte the packet of service 10, uri 1 and the login's fields, which is what a C++ Pack holds (Packets.CppLogin) |
| Packets.CppLogin | include/protocol/plogin.h:42-46 | a C++ Pack with service 10 and uri 1, marshalled into and packed, holds the same packet for the same login |
| Packets.JavaLoginUnderstood | include/protocol/plogin.h:36-40 | the server's unmarshall finds the login's own fields in it |
| Packets.JavaLoginReceived | packages/client/andsdk/src/com/topcall/andsdk/login/proto/PLoginReq.java:12-21 | an Android login, unpacked and unmarshalled by the server, gives the uid, passport and password it was made of |
| EndToEnd.ClientUnderstands | packages/client/andsdk/src/com/topcall/andsdk/protobase/ProtoLink.java:71-126 | fields packed, streamed, cut anywhere and reassembled by the client arrive as the same fields, in order, with their service and uri: if shuffer() kept big-endian, and as written whenever it is not called too early |
| EndToEnd.ServerUnderstands | packages/base/loadtable_d/src/netlistener.cpp:71-94 | the same through the server loop, for messages packed in under 128 bytes |
| EndToEnd.LoginCutAndLost | packages/client/andsdk/src/com/topcall/andsdk/protobase/ProtoLink.java:107-112 | a twenty-byte login of which fifteen bytes arrive first is not delivered by the client as written |
| EndToEnd.LoginThatNeverEnds | packages/base/loadtable_d/src/netlistener.cpp:79-91 | a login of 256 bytes stops the server: nothing is handled and the loop never returns |
| LoadTable.ScoreThresholds | packages/base/loadtable_d/src/ltable.cpp:78-92 | the truncated percentages put the class boundaries at exactly 1/2, 3/4 and 1 |
| LoadTable.BetterClassLessLoaded | packages/base/loadtable_d/src/ltable.cpp:78-92 | a row in a better class carries a strictly smaller fraction of its capacity |
| LoadTable.RoomIsSearched | packages/base/loadtable_d/src/ltable.cpp:56-72 | a row with room is in a searched bucket if and only if its capacity is positive; with a non-negative load, always |
| LoadTable.RoomNotFound | packages/base/loadtable_d/src/ltable.cpp:56-92 | a report of load -1 and capacity 0 makes a row that has room and that no query finds |
| LoadTable.QueryEmptyExactly | packages/base/loadtable_d/src/ltable.cpp:56-72 | a query finds nothing exactly when no row of positive capacity has room, and for non-negative loads exactly when no row at all has room, the bad bucket and unbucketed rows included |
| LoadTable.FoundIsBest | packages/base/loadtable_d/src/ltable.cpp:56-72 | searching class by class, each in key order, finds the row a plain scan would choose |
| LoadTable.FreeExactly | packages/base/loadtable_d/src/ltable.cpp:128-139 | a query takes exactly one unit of the table's total room, and fails exactly when there is none |
| LoadTable.FreeIsRoom | packages/base/loadtable_d/src/ltable.cpp:132 | for non-negative loads a row's share of that total is max(0, load_max - load - reserve) |
| LoadTable.QueriesServedExactly | packages/base/loadtable_d/src/ltable.cpp:56-72 | with no report in between, exactly as many queries succeed as there are units of room, and every later one fails |
| LoadTable.CapacityExactly | packages/base/loadtable_d/src/ltable.cpp:56-72 | from every table reached by reports of non-negative loads and queries, exactly the sum over rows of max(0, load_max - load - reserve) further queries succeed and every later one fails |
| LoadTable.HandOutsBounded | packages/base/loadtable_d/src/ltable.cpp:16-72 | on every run, a row's reservation is the number of times it was handed out since its last report, at most max(0, load_max - load); and the table stays consistent |
| LoadTable.RowsAsReported | packages/base/loadtable_d/src/ltable.cpp:16-50 | after any run the table holds exactly the keys reported, each with the address of its first report, the loads of its last, the class those give, and its hand-outs since |
| LoadTable.QueryAsReported | packages/base/loadtable_d/src/ltable.cpp:56-139 | every query of every run, in terms of reports and hand-outs alone: no key that could be handed out lies below 1/2 of its capacity, or below 3/4, when the one chosen does not; within one class the smallest key is chosen |
| Common.StrLeExactly | packages/base/loadtable_d/src/ltable.cpp:128-139 | the order in which a std::map of strings is searched: a prefix first, otherwise the smaller character where the strings part |
| LTable.LTable.AddRow | packages/base/loadtable_d/src/ltable.cpp:16-50 | a report changes one row's loads and score, clears its reservation, and leaves each row object in exactly the bucket of its score |
| LTable.LTable.UpdateRow | packages/base/loadtable_d/src/ltable.cpp:32-49 | the same for a known row, which changes bucket only when its score changes |
| LTable.LTable.PushItem | packages/base/loadtable_d/src/ltable.cpp:94-109 | only the bucket of the row's score changes |
| LTable.LTable.PopItem | packages/base/loadtable_d/src/ltable.cpp:111-126 | only the bucket of the row's score changes |
| LTable.LTable.QueryInList | packages/base/loadtable_d/src/ltable.cpp:128-139 | the first row of a bucket with room, in key order, gets one more reservation and nothing else changes |
| LTable.LTable.Query | packages/base/loadtable_d/src/ltable.cpp:56-72 | the bucketed search returns the row of the plain scan, NULL when the scan finds none, and changes only that row's reservation |
| LTable.RefiledIsBucket | packages/base/loadtable_d/src/ltable.cpp:41-48 | moving a row keeps a bucket equal to the rows of its score |
| Replication.ReplicasAgree | packages/base/loadtable_d/src/msghandler.cpp:46-57 | over FIFO links: whenever nothing is in flight to a slave, every key reported since it registered has the same loads and class there as on the master, whatever was queried on either side and whatever table the slave came with |
| Replication.ReplicasAsReported | packages/base/loadtable_d/src/msghandler.cpp:46-57 | and those loads are the ones last reported to the master |
| Replication.InFlightAgreement | packages/base/loadtable_d/src/msghandler.cpp:46-57 | at every moment the slave's table plus the reports in flight agrees with the master |
| Replication.QueriesInvisible | packages/base/loadtable_d/src/ltable.cpp:128-139 | local queries never show in what is replicated |
| Replication.Server.OnLTReport | packages/base/loadtable_d/src/msghandler.cpp:46-57 | the server and its slaves take exactly the Report step of the system: the report is applied, and the same report is appended to every slave's link and to no other |
| Replication.Server.Send | packages/base/loadtable_d/src/slavemgr.cpp:36-40 | the fan-out reaches each slave exactly once |
| Replication.Server.OnLTRegSlaveReq | packages/base/loadtable_d/src/slavemgr.cpp:14-27 | takes exactly the Register step: a new slave starts with an empty link and whatever table it brings, and every report from then on goes to it; asking again only renames it |
| Replication.Server.OnLTQueryReq | packages/base/loadtable_d/src/msghandler.cpp:59-71 | takes exactly the MasterQuery step; RES_OK is stored exactly when the table has a row to give, and nothing is sent |
| Replication.Server.OnLTQueryJsonReq | packages/base/loadtable_d/src/msghandler.cpp:73-97 | the answer carries the address and loads of the row the scan picks, or RES_FAIL when there is none; takes exactly the MasterQuery step |
| Replication.AnswerAsReported | packages/base/loadtable_d/src/msghandler.cpp:73-97 | on every run the answer carries the first reported address and the last reported loads of the key handed out, and fails exactly when no key of positive capacity can be handed out |
| Replication.Server.OnDisconnect | packages/base/loadtable_d/src/netlistener.cpp:107-110 | takes exactly the Disconnect step: the link is dropped and is no longer a slave's |
| Replication.Server.Deliver | packages/base/loadtable_d/src/msghandler.cpp:46-57 | the oldest report in flight, handled by the slave as a server of its own, is the Deliver step of its master's system and a Report step of the slave's |
| Replication.Server.QueryAtSlave | packages/base/loadtable_d/src/msghandler.cpp:59-71 | a query at the slave is the SlaveQuery step of its master's system |
| Keys.QuadKeyInjective | packages/media/mcproxy_d/src/msghandler.cpp:65-66 | two requests share a printed key only if they are the same four ints |
| Keys.QuadKeyLength | packages/media/mcproxy_d/src/msghandler.cpp:65-66 | the key has at most 47 characters, so it fits its 64-byte buffer |
| Keys.IspAreaKeyInjective | packages/media/mcenter_d/src/grpispmap.cpp:15-16 | isp:area keys are injective |
| Keys.IndexKeysApart | packages/media/mcenter_d/src/grpispmap.cpp:15-16 | isp keys and isp:area keys, which share one map, never collide |
| Masks.CoversBoth | packages/media/mcenter_d/src/grpmgr.cpp:213 | a mask covers the union of two users' ISPs exactly when it covers each |
| Groups.UsableExactly | packages/media/mcenter_d/src/grplist.cpp:36-43 | for non-negative loads a group is passed over exactly when its load exceeds its capacity |
| Groups.GoodExactly | packages/media/mcenter_d/src/grplist.cpp:36-39 | for non-negative loads a group is taken at once exactly when it is idle, at most a third full, or has room for more than 100000 |
| Groups.HigherScoreLessLoaded | packages/media/mcenter_d/src/grpinfo.h:34 | of two busy groups the one with the higher score carries the smaller fraction of its capacity |
| Groups.FreeGroupSelects | packages/media/mcenter_d/src/grplist.cpp:26-47 | the scan selects the first good group, or else the first of those with the highest positive score, and finds nothing exactly when nothing is usable |
| Groups.RepeatAbsorbed | packages/media/mcenter_d/src/grplist.cpp:26-47 | a group listed again changes no selection |
| Groups.FindGroupExactly | packages/media/mcenter_d/src/grpispmap.cpp:52-76 | an isp:area lookup fails exactly when the mask has no usable group, whatever the area |
| Groups.FetchGroupExactly | packages/media/mcenter_d/src/grpmgr.cpp:84-138 | the search fails exactly when no group reported under a mask covering both users is usable, and what it returns is such a group |
| Groups.GroupsAsReported | packages/media/mcenter_d/src/grpmgr.cpp:25-55 | after any run of reports the groups are exactly the names reported, each with the address, mask and area of its first report and the loads, url and time of its last |
| Groups.FilingsAsReported | packages/media/mcenter_d/src/grpmgr.cpp:57-61 | every report files its name under its own mask and area |
| Groups.FetchAsReported | packages/media/mcenter_d/src/grpmgr.cpp:84-138 | on every run of reports of non-negative loads, in terms of the reports alone: NULL exactly when every name ever reported under a covering mask was last reported with more load than capacity; otherwise such a name with room |
| Groups.StableFetchExactly | packages/media/mcenter_d/src/grpmgr.cpp:84-138 | on report-only runs where names keep their masks, over each name's last report: NULL exactly when every name whose mask covers both users was last reported with load above load_max, and any group returned covers both |
| Groups.NearbyPreferred | packages/media/mcenter_d/src/grpispmap.cpp:52-66 | when the exact mask has a usable group in the first area, one of those is returned |
| Groups.SmallestWiderMask | packages/media/mcenter_d/src/grpmgr.cpp:207-227 | when the exact mask has no usable group, the group comes from the smallest covering mask, as a signed int, that has one |
| Groups.SecondAreaRedundant | packages/media/mcenter_d/src/grpmgr.cpp:200-227 | the result does not depend on the second area: each lookup under it is redundant |
| Groups.RefilingChangesNothing | packages/media/mcenter_d/src/grpmgr.cpp:57-61 | the repeated index entries that re-reports make change no search |
| MCenter.FiledNext | packages/media/mcenter_d/src/grpispmap.cpp:11-35 | the lists under the printed keys stay equal to what was filed under each mask and area |
| MCenter.GrpIspMap.Add | packages/media/mcenter_d/src/grpispmap.cpp:11-35 | the group is appended under both keys and under no other |
| MCenter.GrpIspMap.FindGroup | packages/media/mcenter_d/src/grpispmap.cpp:52-76 | first the isp:area list, then the isp list |
| MCenter.GrpList.GetFreeGroup | packages/media/mcenter_d/src/grplist.cpp:26-47 | the loop with its early exit returns the list's selected group |
| MCenter.GrpMgr.Add | packages/media/mcenter_d/src/grpmgr.cpp:25-62 | a report updates or creates one group and files it once more; name map, lists and mask set stay in step, and what they then hold is Groups.GroupsAsReported |
| MCenter.GrpMgr.FindFallbackIsp | packages/media/mcenter_d/src/grpmgr.cpp:207-227 | the covering masks are tried in ascending order |
| MCenter.GrpMgr.FetchGroup | packages/media/mcenter_d/src/grpmgr.cpp:84-138 | the object returned is the group the search over values names |
| MCenter.MsgHandler.OnMCReportReq | packages/media/mcenter_d/src/msghandler.cpp:54-74 | reports with an unknown mask are dropped, others filed |
| MCenter.MsgHandler.OnMCPreAllocReq | packages/media/mcenter_d/src/msghandler.cpp:82-155 | one reply for each request, echoing its four ints, and a charge of num to the chosen group exactly when it grants |
| MCenter.GrantedExactly | packages/media/mcenter_d/src/msghandler.cpp:92-128 | granted exactly when both masks are valid and some group reported under a covering mask is usable; the two failures are told apart and charge nothing |
| MCenter.GrantChargesNamed | packages/media/mcenter_d/src/msghandler.cpp:129-153 | a grant carries num and the address of a group that can serve the request, and charges that group alone, by num |
| Proxy.GetTakesOne | packages/media/mcproxy_d/src/cache.cpp:107-137 | a get lowers the units by exactly one, and fails exactly when there are none |
| Proxy.SweepTakes | packages/media/mcproxy_d/src/cache.cpp:149-157 | a sweep lowers the units by what it removes |
| Proxy.YoungItemsStay | packages/media/mcproxy_d/src/cache.cpp:149-157 | an item survives every sweep until twenty seconds after its stamp |
| Proxy.ReachableLists | packages/media/mcproxy_d/src/cache.cpp:98-157 | every reachable list holds only items with units left, so the erase-then-advance branches are never taken; with a monotone clock it is sorted by age |
| Proxy.ExpiredItemsSwept | packages/media/mcproxy_d/src/cache.cpp:149-157 | one sweep removes one item at most, but k items older than twenty seconds are gone after k sweeps, whatever gets and additions come between them on a monotone clock |
| MCProxy.CacheList.Get | packages/media/mcproxy_d/src/cache.cpp:107-137 | one unit of the oldest item, taken in place |
| MCProxy.CacheList.Size | packages/media/mcproxy_d/src/cache.cpp:139-146 | the loop adds up the remaining units |
| MCProxy.CacheList.ClearExpire | packages/media/mcproxy_d/src/cache.cpp:149-157 | exactly the first expired item goes |
| MCProxy.Cache.Add | packages/media/mcproxy_d/src/cache.cpp:22-35 | the item joins its key's list and no other |
| MCProxy.Cache.Get | packages/media/mcproxy_d/src/cache.cpp:37-47 | the packet of the key's oldest item; other keys are untouched |
| MCProxy.Cache.ClearExpire | packages/media/mcproxy_d/src/cache.cpp:71-75 | every key's list is swept once |
| MCProxy.PendList.Add | packages/media/mcproxy_d/src/pendlist.cpp:9-19 | the link joins the set parked under its key |
| MCProxy.MsgHandler.OnMCAllocReq | packages/media/mcproxy_d/src/msghandler.cpp:58-111 | hit, miss, refill and parking, with the requests and answers sent |
| MCProxy.MsgHandler.OnMCPreAllocRes | packages/media/mcproxy_d/src/msghandler.cpp:113-163 | the cache is stocked on a grant, and the key's parked links are answered and forgotten |
| MCProxy.MsgHandler.AnswerAll | packages/media/mcproxy_d/src/msghandler.cpp:129-134 | the fan-out sends each link exactly one packet |
| Proxy.FanOutOnce | packages/media/mcproxy_d/src/msghandler.cpp:155-160 | each parked link is answered exactly once and nobody else is |
| Alloc.UnitsConserved | packages/media/mcenter_d/src/msghandler.cpp:113-154 | on every run of a centre and any number of proxies: units charged to groups = units in granting replies in flight + units in all caches + cache hits served + units expired |
| Alloc.HitsNeverExceedCharges | packages/media/mcproxy_d/src/cache.cpp:107-137 | so the proxies together never serve more cache hits than were charged |
| Alloc.AskKeepsUnits | packages/media/mcproxy_d/src/msghandler.cpp:58-111 | a client request moves one unit from cache to hit, or none |
| Alloc.TakeKeepsUnits | packages/media/mcproxy_d/src/msghandler.cpp:113-163 | a reply's units move from flight to cache; answering parked links moves none |
| Alloc.ServeChargesUnits | packages/media/mcenter_d/src/msghandler.cpp:113-154 | what a reply carries is what the group was charged |
| Alloc.TickKeepsUnits | packages/media/mcproxy_d/src/cache.cpp:71-75 | what sweeping removes is what expires |
| Alloc.AnswersSuitTheirRequests | packages/media/mcproxy_d/src/msghandler.cpp:58-162 | on every run, whatever is answered with OK for a request, cached or parked, names a group reported under a mask covering both its users, and carries its own first ISP and area |
| Alloc.ParkedAreAwaited | packages/media/mcproxy_d/src/msghandler.cpp:68-88 | on every run, a key with parked links has a request or a reply under way |
| Alloc.QuietLeavesNobodyParked | packages/media/mcproxy_d/src/msghandler.cpp:68-88 | when nothing is under way on a proxy's links, none of its clients is left parked |
| Alloc.ReplyAnswersParked | packages/media/mcproxy_d/src/msghandler.cpp:129-161 | the reply for a key answers each link parked there exactly once and empties the set; other keys keep theirs |
| Alloc.RequestsAccounted | packages/media/mcproxy_d/src/msghandler.cpp:58-162 | on every run, what a link has asked a proxy for a key equals what it has been answered, plus the request it may have parked, plus those it made while one was parked; so it is never answered more often than it asked |
| History.CenterAsReported | packages/media/mcenter_d/src/grpmgr.cpp:25-62 | whatever is requested in between, the centre knows exactly what the reports it accepted say, charges apart |
| History.ServedAsReported | packages/media/mcenter_d/src/msghandler.cpp:82-155 | every step of every run in which the centre serves: one request off, one reply on, granted exactly when valid masks and the last reports allow; a grant is of 300 units at the first reported address of a name that can serve, and charges that name alone |
| History.AskSends | packages/media/mcproxy_d/src/msghandler.cpp:68-107 | a client request sends one refill of 300 exactly when the key held at most 50 units before it, and nothing otherwise |
| History.LinksAccounted | packages/media/mcproxy_d/src/msghandler.cpp:68-107 | on every run the requests a proxy has sent are one for each client request that found at most 50 units, in order; each is still on the link or served once; and each served has its own reply, taken or still on the link |
| History.ParkedAreTold | packages/media/mcproxy_d/src/msghandler.cpp:122-161 | the next reply gives each link parked under its key exactly one answer: success with the reply's own address and first pair if it grants, failure if not |
| History.HitsSucceed | packages/media/mcproxy_d/src/msghandler.cpp:89-90 | on every run a request that finds its key cached is answered at once and with success |
| History.FailuresHaveCause | packages/media/mcproxy_d/src/msghandler.cpp:122-136 | on every run, a client is told of failure only if the centre served a request of its key that, by the reports till then, no group could serve |
| History.CachesAreLists | packages/media/mcproxy_d/src/cache.cpp:22-75 | on every run each cached list is what gets, grants of 300 stamped on arrival, and sweeps make of an empty one |
| History.HitServesOldest | packages/media/mcproxy_d/src/cache.cpp:107-137 | on every run with a clock that does not go back, a hit is served from the oldest item, which loses one unit; the others stay |

## Left out

- ProtoLink.ProtoLink.OnData: TCP links only; a UDP link starts with 32 KiB and its datagrams may exceed what one doubling makes room for.
- ProtoLink.CutsAgreeExactly: takes shuffer() to keep big-endian; for the order it does set, streams of whole packets are covered by `SwitchedOrder.EveryCutExactly`.
- ReadLoop.Connection.ReadCb: stops at a message of length zero, which the code hands to its handler over and over with stale bytes, and at one longer than the 128 KiB handler buffer, which the code copies past its end.
- Packets.ProtoPacket.PushString16: ASCII strings only, as for JavaLogin.
- Packets.JavaLogin: ASCII strings only; for others the Java length counts UTF-16 units while the bytes are UTF-8.
- Packets.PSyncUidsReq.Unmarshall: requires the counted ints to be in the buffer, since the C++ code reads past its end otherwise.
- LTable.LTable.AddRow: requires load*100 to fit 32 bits, beyond which the C++ arithmetic is undefined.
- MCenter.GrpMgr.Add: requires loads whose difference and quotient are defined in 32 bits; name, ip and port of a known group stay as first reported, as in the code.
- MCenter.GrpMgr.AddAllocated: the charged total is unbounded here, while m_nLoadAllocted is a 32-bit int that is never cleared.
- MCProxy.CacheList.Get: requires the oldest item, if any, to have units left, since the code steps an erased iterator otherwise; `Proxy.ReachableLists` and `Alloc.UnitsConserved` show that it always has. `MCProxy.Cache.Get` and `MCProxy.MsgHandler.OnMCAllocReq` pass the requirement on.
- History.ServedAsReported: for reports of non-negative loads, on which usable means load at most load_max.
- History.ParkedAreTold: of a failure it claims the result code only, since the code leaves the ISPs and areas of that packet unset.
- Alloc.UnitsConserved: answers fanned out to parked links use up no unit, in the code as here, so it bounds cache hits and not all OK answers.
- Alloc.AnswersSuitTheirRequests: says nothing of the second ISP and area of an answer, which the proxy fills with copies of the first.
- Alloc.ParkedAreAwaited: links stay up; a lost centre link, which drops requests, is not modelled. A link that asks twice for one key while parked is parked, and answered, once.
- Replication.ReplicasAgree: the links deliver every report in order; over the servers' own read loop that holds of reports under 128 bytes only. ip, port and ext of a row are not claimed equal, because a known row keeps those it was first reported with.
- Removal and expiry of groups and of slaves, and the reconnecting of links.
- Timing: the clock is an input, and a sweep may come at any time rather than on every third tick.
- The other packets of include/protocol, which are field sequences covered by `Wire.RoundTrip`, and the reading half of the Java packet.
- Logging, statistics, dumps, sockets and the event loop.
