# psvemmc: models and proofs

A Dafny model of the three stateful cores of psvemmc, with proofs about them.

**The sort and the address index.** `QSort` is the Bentley-McIlroy quicksort of `driver/qsort.c`, in place on an array:
medians of three and of nine, the four-pointer partition that parks equal keys at both ends, the two block exchanges that
bring them to the middle, the switch to insertion sort after a pass that moved nothing, recursion on the left part and
the jump back for the right one. It is proved to rearrange its range for every comparator, to sort it for every total
preorder (`Orders`), and to call the comparator at most n(n + 25) / 2 times. `BlockSwap` is the layer below: whole words
exchanged in a do-while loop, refined to the exchange of elements the sort is written with. `ModuleTable` is the
address-to-segment table built with it from the kernel's module list; `StackTrace` is the stack scan that searches it.

**The sector dump.** `Wire` and `Mbr` are the packed structures; `Pools`, `Protocol` and `Sessions` say on values what a
request does to the two cluster pools and what a connection comes to; `Answers` says it in the bytes on the wire; `Driver`, `Server` and `Client` are the three
programs as classes with the same fields, handlers and loops; `PoolInvariant`, `DumpPlan`, `Dump` and `DumpProgress` hold
the theorems, and `EndToEnd` runs the client and the server on the two ends of a connection.
A run is two byte streams. What the network answers to successive `send` and `recv` calls is a script fixed in advance
(`Sockets`), so a method proved for every script is proved for every way the network can chop the streams; a script that
runs out is the end of the observed run. The kernel's answers are parameters (`Env`). `EndToEnd` asks only that each side
has received a start of what the other has sent; it therefore covers every interleaving of the two programs. Each method
also says when it must succeed: on a script that moves short messages whole and long ones in whatever pieces, requests
that have arrived are all served, and responses that have arrived end the dump (`Generous`, `Arrived`, `Coming`). So a device that answers is in fact dumped, if the
server's pool is down when the client connects (`EndToEnd.RunDump`, `EndToEnd.RunDevice`).

**The log.** `GlobalLog` is the reference-counted log of `driver/glog.c`: the two globals as a class, and any number of
threads as sequences of atomic calls.

## What turned out not to hold

- The cluster split is sound for a partition if and only if the partition is empty, or it ends within the first 2^31
  sectors and starts on a multiple of 8 unless it is smaller than 8 sectors (`DumpPlan.SplitExactly`).
- The two pools stay in agreement except across a DEINIT on which the driver's free fails and the server's succeeds
  (`PoolInvariant.InvBreaksExactly`). One DEINIT/INIT round does not always recover from that, two always do.
- A dump that breaks off after its INIT leaves the server's pool up, and the client never sends DEINIT first: the next
  INIT is refused, and every later dump of at least one sector fails, torn headers or not, as long as the client greets at
  most 22 times before it; this one greets once (`DumpProgress.FinishedFoundPoolDown`, `DumpProgress.BrokenDumpBlocks`).
- The geometry of an INIT is not checked against the size of the block, which wraps at 32 bits: a pool that is up has room
  for one cluster if and only if the product did not wrap (`Pools.RoomExactly`). INIT(0x200, 0x800008) brings both pools
  up with 0x1000 bytes for clusters of 0x800008 sectors (`PoolInvariant.WrappedGeometry`).
- The client declares the two error words of a response unsigned, so its comparison with 0 never sees the server's -1. A
  sector request of which the server receives only part is answered with -1 and zeros, and the client takes the zeros
  for the sector: `Dump.DumpIsPartitionExactly` says exactly when that spoils a dump.
- The client takes the header of a cluster with one `recv`. If that brings only a piece, the rest of the record is whatever
  the stack held, and a piece of at most 8 bytes can be accepted whatever error the driver reported
  (`Dump.TornHeaderAccepted`). What the client then writes is the cluster if and only if the cluster repeats the rest of
  the header throughout (`Dump.TornHeaderExactly`): for a successful read, if the cluster is blank
  (`Dump.TornHeaderSpoils`). Hence the file is compared with the partition only in runs whose headers came whole
  (`ClientModule.Whole`).
- A segment that wraps past the last 32-bit address is never found (`ModuleTable.WrapExact`): the index agrees with the
  module list on every address if and only if no segment does (`ModuleTable.IndexAgreesExactly`), and the segment of
  0x2000 bytes at 0xFFFFF000 is lost (`ModuleTable.WrappedSegmentIsLost`).
- The printed table is complete if and only if no reported segment starts or ends at 0xFFFFFFFF
  (`ModuleTable.PrintsExactly`); one of 0xFFF bytes at 0xFFFFF000 is left out (`ModuleTable.PrintStopsShort`).
- A message reaches the log if and only if opens outnumber closes when it is written (`GlobalLog.MessageKeptExactly`), so
  one close too many costs other threads their messages.
- The command called TERMINATE only answers with the greeting; the model follows the code. `dump_device` ignores what
  `parse_sce_mbr` and `dump_partition` return, so a table that does not validate is used all the same.

## Model

| member | source | states |
|---|---|---|
| QSort.Med3IsMedian | driver/qsort.c:77-83 | the element chosen among three lies between the other two |
| QSort.NintherIsCentral | driver/qsort.c:104-115 | beyond 40 elements, at least three other elements of the range are not greater than the chosen pivot and at least three not less, from disjoint samples |
| QSort.InsertOne | driver/qsort.c:99-101 | the inner loop makes the sorted prefix one longer, rearranges nothing else, and compares at most once per position |
| QSort.InsertionSort | driver/qsort.c:97-103 | rearranges the range for every comparator, sorts it for every total preorder, with at most n(n-1)/2 comparisons |
| QSort.ScanUpward | driver/qsort.c:121-128 | keeps equal / less / unscanned / greater / equal, and stops at an element greater than the pivot or past the other pointer |
| QSort.ScanDownward | driver/qsort.c:129-136 | the same downwards, leaving a greater element under the lower pointer |
| QSort.FatPartition | driver/qsort.c:117-143 | exits with pb exactly one past pc and the layout complete; reports a swap if and only if there was something to move; at most n comparisons |
| QSort.GatherSplits | driver/qsort.c:152-156 | the two block exchanges turn the layout into less / equal / greater with lengths pb-pa and pd-pc for the outer parts |
| QSort.GatherPermutes | driver/qsort.c:152-156 | the two exchanges only rearrange the range; each moves the smaller of two adjacent blocks, so its operands are disjoint |
| QSort.Pass | driver/qsort.c:104-156 | one pass either finds the range already split around its pivot and finishes it by insertion, or splits it three ways around a non-empty middle equal to the pivot |
| QSort.CallBoundSplit | driver/qsort.c:157-164 | the comparisons of a pass and of its two parts, which leave out at least the pivot, stay within the bound |
| QSort.QsortImp | driver/qsort.c:87-166 | for every comparator a rearrangement of the range and nothing else; sorted for every total preorder; at most n(n+25)/2 comparator calls; terminates |
| BlockSwap.SwapWords | driver/qsort.c:44-53 | exchanging whole words equals exchanging the bytes of the two blocks, for a positive multiple of the word size |
| BlockSwap.SwapChars | driver/qsort.c:44-53 | the byte loop exchanges the two blocks |
| BlockSwap.SwapFunc | driver/qsort.c:58-65 | either loop, as swaptype selects, exchanges the two blocks |
| BlockSwap.SwapMacro | driver/qsort.c:67-73 | whatever SWAPINIT chose, the two elements are exchanged, an element with itself included |
| BlockSwap.VecSwapMacro | driver/qsort.c:75 | whatever SWAPINIT chose, two blocks of whole elements are exchanged, empty ones included |
| BlockSwap.SwapInitStable | driver/qsort.c:55-56 | SWAPINIT answers the same for every element of a table, so the jump back to "loop" does not change it |
| BlockSwap.SwapElementsRefines | driver/qsort.c:58-75 | exchanging blocks of memory exchanges exactly the elements laid out there |
| BlockSwap.SwapElements | driver/qsort.c:55-73 | the swap macro, with the swaptype of the range of the pass, does to the elements in memory what the sort's exchange does to its array |
| BlockSwap.VecSwapElements | driver/qsort.c:55-75 | and the vecswap macro what its block exchange does |
| ModuleTable.CompareIsPreorder | driver/mtable.c:91-101 | comparing start addresses is a total preorder, as the sort needs |
| ModuleTable.Table.AddModule | driver/mtable.c:67-81 | writes the slots of the segments that have an address, in order, and touches no other slot |
| ModuleTable.Table.Fill | driver/mtable.c:57-88 | fills the table with the slots of the modules described before the first failure, blank after them, and returns that failure |
| ModuleTable.Table.Construct | driver/mtable.c:31-89 | nothing on a second call; otherwise exactly the reported slots and blanks, on every error path too |
| ModuleTable.Table.Sort | driver/mtable.c:103-111 | -1 before construction; afterwards ascending by start, with the same slots |
| ModuleTable.Table.Find | driver/mtable.c:113-125 | the index of the first slot that contains the item, or -1 |
| ModuleTable.Table.Print | driver/mtable.c:127-144 | prints the slots before the first one that starts or ends at all ones |
| ModuleTable.BuildIndex | driver/psvemmc.c:459-460 | a fresh table constructed and sorted; if every module was described, it answers every address as the module list does if and only if no segment wraps |
| ModuleTable.WrapExact | driver/mtable.c:77-78 | a slot covers exactly its segment's addresses if and only if the segment is empty or does not wrap; one that wraps covers none |
| ModuleTable.ReportedMember | driver/mtable.c:59-82 | a slot is written if and only if it is that of a segment with an address of a described module |
| ModuleTable.ReportedAt | driver/mtable.c:59-82 | each segment with an address has one slot, in the order of the list, and what its fields are |
| ModuleTable.ReturnCodeExactly | driver/mtable.c:52-64 | the code is the list's failure, else the first failure to describe a module, else 0 |
| ModuleTable.HitIsReported | driver/mtable.c:113-125 | in any state after construction a hit is a reported slot, and there is a miss if and only if no reported slot contains the item |
| ModuleTable.IndexAgrees | driver/mtable.c:31-125 | without wrapping, a miss if and only if no listed segment covers the item; otherwise a covering segment of least start |
| ModuleTable.IndexAgreesExactly | driver/mtable.c:31-125 | it answers so for every address if and only if no listed segment wraps |
| ModuleTable.WrappedSegmentIsLost | driver/mtable.c:77-78 | in the table of a concrete list no address of a wrapping segment is found |
| ModuleTable.OrderIrrelevant | driver/mtable.c:103-125 | when at most one reported segment covers the item, sorted and unsorted tables answer alike |
| ModuleTable.PrintsExactly | driver/mtable.c:127-144 | only reported slots are printed, in order; and every one as often as reported if and only if none starts or ends at all ones |
| ModuleTable.PrintStopsShort | driver/mtable.c:134-135 | of a concrete list of two disjoint segments only the first is printed |
| StackTrace.StacktraceGlobal | error_logger/stacktrace.c:53-113 | all stackSize words are scanned; the buffer starts with the kept ones in stack order, is untouched after them, and the count is theirs |
| StackTrace.TraceConcat | error_logger/stacktrace.c:61-110 | scanning two stretches of stack one after the other equals scanning them joined, so order is kept |
| StackTrace.TraceCounts | error_logger/stacktrace.c:61-110 | a wanted word is kept as often as it occurs on the stack, and no other word is kept |
| StackTrace.VerboseKeepsReported | error_logger/stacktrace.c:63-72 | in verbose mode a word is wanted if and only if some reported segment contains it |
| StackTrace.KeptIsAskedFor | error_logger/stacktrace.c:86-93 | otherwise a kept word lies in the asked-for segment of a module of the asked-for name |
| StackTrace.NamedKeepsExactly | error_logger/stacktrace.c:86-93 | and for a word in at most one reported segment those are exactly the words kept |
| StackTrace.CString | error_logger/stacktrace.c:88 | a C string is what comes before the first zero byte |
| StackTrace.PaddedName | error_logger/mtable.c:63-64 | the padded 28-byte name is a C string of the module's name |
| Answers.ByteOrder | server/src/main.c:154-384 | words are sent low byte first, negative ones in two's complement |
| Answers.CommandBytes | server/src/main.c:133-152 | the first four bytes of a request are one of sixteen command words, each for one operation on one device |
| Answers.RequestFields | client/psvemmc/EmmcClient.h:36-230 | the length of each request, and at which byte each of its fields lies |
| Answers.ClosesExactly | server/src/main.c:466-525 | exactly which requests make the server drop the connection: a refused INIT, a refused DEINIT, a cluster read of negative size |
| Answers.RefusalAnswer | server/src/main.c:466-525 | a refused INIT or DEINIT says -2 and changes nothing |
| Answers.GreetingAnswer | server/src/main.c:386-408 | the 22 bytes of the answer to PING and TERMINATE |
| Answers.InitAnswer | server/src/main.c:460-510 | both error words and both pools after an INIT, for every answer of the kernel |
| Answers.DeinitAnswer | server/src/main.c:512-545 | both error words and both pools after a DEINIT, each for its own free |
| Answers.ReadSectorAnswer | server/src/main.c:549-595 | the driver's error for each failure; the sector if it is 0, zeros otherwise; nothing changes |
| Answers.ReadClusterAnswer | server/src/main.c:597-647 | the driver's error for each failure, and as many bytes as the geometry says, which are the server's pool, loaded only if it is 0 |
| Answers.ReadClusterLoads | driver/psvemmc.c:206-223 | the driver's block holds the sectors as soon as they are read, copied out or not |
| Answers.AbortAnswer | server/src/main.c:561-569 | a body that came up short is answered with -1, after a sector read with zeros |
| Answers.SectorWordReads | server/src/main.c:1177-1240 | what follows the words 4, 8 and 12 is the number of the sector that is read, of the device the word names |
| Answers.ClusterWordReads | server/src/main.c:1184-1248 | and likewise the words 5, 9 and 13 for clusters |
| Answers.WriteFillsPool | server/src/main.c:711-732 | the data of a cluster write ends up in the server's pool, and nowhere else |
| Answers.FailedReadEchoes | server/src/main.c:621-645 | so a cluster read that fails after it sends that data back |
| Answers.TornWriteLeaves | server/src/main.c:711-727 | a torn write leaves its first part and the rest of the block |
| Wire.WholeWord | server/src/main.c:1138-1146 | a command word received whole is the code that was sent |
| Wire.ShortWord | server/src/main.c:1138-1146 | a command word received in part over -1 is negative, whatever its bytes |
| Pools.ClusterPool.Initialize | server/src/main.c:422-444 | the pool's new state and code for every answer of the kernel; a pool that is up has a block of the size asked for, wrapped at 32 bits |
| Pools.RoomExactly | server/src/main.c:432 | the block has room for a cluster of the geometry if and only if the product did not wrap; otherwise a cluster overruns it |
| Pools.ClusterPool.Deinitialize | driver/psvemmc.c:88-100 | the pool goes down exactly when it was up and the free succeeded |
| PoolInvariant.InvBreaksExactly | server/src/main.c:512-545 | one request breaks "driver up implies server up with the same geometry" if and only if it is a DEINIT whose driver free fails and server free succeeds |
| PoolInvariant.InvRun | server/src/main.c:1134-1301 | the agreement holds over every sequence of commands if the driver's frees succeed, whatever else fails |
| PoolInvariant.InvFromStart | server/src/main.c:413-420 | so it holds in every state reached from the start |
| PoolInvariant.SessionKeepsInv | server/src/main.c:1290-1297 | a connection keeps it however it ends, inside a cluster write too |
| PoolInvariant.ClusterFillsPool | driver/psvemmc.c:206-223 | a cluster the driver delivers is as long as the server's pool, and is the cluster's sectors if and only if the pools have room for them |
| PoolInvariant.WrappedGeometry | driver/psvemmc.c:75 | INIT(0x200, 0x800008) brings both pools up with 0x1000 bytes |
| PoolInvariant.RecoversExactly | server/src/main.c:460-545 | DEINIT then INIT ends with both pools up and as requested if and only if no driver pool of another geometry was left behind by a server that is down |
| PoolInvariant.RecoversFromInv | server/src/main.c:460-545 | so one round recovers from every state the agreement allows, and restores it |
| PoolInvariant.TwoRoundsRecover | server/src/main.c:460-545 | two rounds recover from every state whatever |
| DriverModule.Driver.ReadSector | driver/psvemmc.c:105-121 | the code for every failure, and the sector in the buffer exactly when it is 0 |
| DriverModule.Driver.ReadCluster | driver/psvemmc.c:206-223 | the code and both pools for every failure; the sectors pass through the driver's pool into the caller's |
| Protocol.WritesAreRefused | driver/psvemmc.c:166-305 | no write ever succeeds: the driver's error is negative in every state and tells a missing device and a pool that is down apart, the driver's side is unchanged, and the connection stays open |
| ServerModule.Server.HandleGreeting | server/src/main.c:386-408 | the greeting, with the command's own code |
| ServerModule.Server.HandleInit | server/src/main.c:460-510 | both pools and the response for every answer of the kernel; refused while the pool is up; a short body is reported and ends the connection |
| ServerModule.Server.HandleDeinit | server/src/main.c:512-545 | both pools and the response; refused while the pool is down |
| ServerModule.Server.HandleReadSector | server/src/main.c:549-595 | header and sector, in order, whatever pieces they leave in; zeros under an error |
| ServerModule.Server.HandleReadCluster | server/src/main.c:597-647 | header and then a cluster's worth of bytes, under an error too |
| ServerModule.Server.HandleWriteSector | server/src/main.c:649-687 | consumes exactly the request, collected from any pieces, and answers the driver's error |
| ServerModule.Server.HandleWriteCluster | server/src/main.c:689-740 | consumes exactly the request into the pool, collected from any pieces; a torn one leaves only its first part there; one that has arrived whole is answered |
| ServerModule.Server.Dispatch | server/src/main.c:1146-1267 | the handler of the request that was sent serves it |
| ServerModule.Server.ReceiveCommands | server/src/main.c:1134-1269 | framing: the commands served are a prefix of those the client encoded, under every chunking, and bytes that are no command end the connection; the state and the bytes emitted are theirs; if all requests arrive and the calls get through, all are served and answered, up to one that closes the connection |
| ServerModule.Server.ServeNext | server/src/main.c:1138-1268 | one round leads from one request boundary to the next or ends the connection; a request that has arrived is served |
| ServerModule.Server.ServeConnection | server/src/main.c:1287-1297 | one client served from whatever state the last one left, and its connection closed |
| ServerModule.Server.AcceptConnections | server/src/main.c:1271-1301 | over any sequence of clients, each free to suit its bytes and its well-formed requests to the state it finds, each is served from the state the last one left, its connection is closed, and the two pools agree between any two of them |
| Sessions.WriterSpeaks | server/src/main.c:689-740 | a client that asks for clusters of 0x1000 bytes and writes such clusters, whatever it finds, is one of them |
| Sessions.BetweenWord | server/src/main.c:1138-1146 | between two requests the next word is, in part, no command, and whole, the next request's; after the last it is none of the sixteen |
| Sessions.BetweenStep | server/src/main.c:1146-1268 | one handled request takes the connection from one request boundary to the next, or ends it |
| DumpPlan.SplitExactly | client/psvemmc/psvemmc.cpp:476-507 | the sectors read are the partition's, in order, each once, if and only if it is empty, or ends within 2^31 and starts on a cluster unless smaller than one |
| DumpPlan.ClusterInRange | client/psvemmc/psvemmc.cpp:484-492 | within that limit the cluster number and its first sector do not overflow |
| DumpPlan.TailInRange | client/psvemmc/psvemmc.cpp:485-503 | nor does a tail sector number |
| ClientModule.Client.RecvLoop | client/psvemmc/psvemmc.cpp:156-168 | when it ends, the buffer holds the next bytes of the stream, whatever pieces they came in |
| ClientModule.Client.Exchange | client/psvemmc/psvemmc.cpp:65-133 | one request sent, at most one response taken; one that comes whole is accepted if and only if it has the request's code |
| ClientModule.Client.EmmcReadSector | client/psvemmc/psvemmc.cpp:135-180 | exactly one response consumed, accepted, and its sector delivered; an acceptable one that has arrived is accepted |
| ClientModule.Client.EmmcReadCluster | client/psvemmc/psvemmc.cpp:182-234 | one header as it came, which passes as far as it goes, and exactly one cluster consumed; an acceptable response that has arrived is accepted |
| ClientModule.Client.DumpPartition | client/psvemmc/psvemmc.cpp:472-513 | when it finishes it has sent exactly the requests of the plan, and the file is what followed the headers it took, whole or not; if acceptable responses arrive it finishes, with exactly those |
| ClientModule.Client.ParseSceMbr | client/psvemmc/psvemmc.cpp:515-526 | the record holds the first sector, and is reported valid exactly when it validates |
| ClientModule.Client.DumpDevice | client/psvemmc/psvemmc.cpp:542-559 | a finished session greeted, read the first sector, and dumped the partition its table names; if acceptable responses to that arrive it finishes; an empty entry makes it return -1 with nothing asked for after the first sector |
| Mbr.ParseEncodes | client/psvemmc/SceMbr.h:41-72 | the packed layout loses no byte of a sector |
| Mbr.EncodeParses | client/psvemmc/SceMbr.h:41-72 | and every record is the parse of its bytes |
| Mbr.EntryFields | client/psvemmc/SceMbr.h:41-50 | at which bytes of the sector each field of table entry i lies |
| Mbr.ValidatedBytes | client/psvemmc/SceMbr.cpp:59-79 | which bytes of the sector decide that the record is valid |
| Dump.ReplyLength | server/src/main.c:573-646 | a response to a request of a dump is as long as what the client waits for, on a failed read too |
| Dump.AcceptedExactly | client/psvemmc/psvemmc.cpp:170-177 | the client accepts a header if and only if the driver's error is 0, or the request is no read; the server's own error it never sees |
| Dump.AcceptedIsDisk | server/src/main.c:573-646 | a read response the client accepts carries what is on the device |
| Dump.Lockstep | client/psvemmc/psvemmc.cpp:197-231 | after k responses the client has consumed exactly the k responses emitted: nothing is left between commands |
| Dump.FrameIsReply | client/psvemmc/psvemmc.cpp:150-177 | what the client takes for the k-th response is the k-th response |
| Dump.BeyondLog | server/src/main.c:561-569 | a response to a request the server did not serve can only be the last, to a torn one; for a sector it brings zeros |
| Dump.DumpWritesPlan | client/psvemmc/psvemmc.cpp:472-513 | a finished dump has written the sectors of its plan for every partition geometry, the last one excepted if torn |
| Dump.DumpIsPartition | client/psvemmc/psvemmc.cpp:472-513 | end to end: the file of a dump that finishes is the partition, under any chunking and whatever the two agreeing pools held before |
| Dump.DumpIsPartitionExactly | client/psvemmc/psvemmc.cpp:170-177 | it is the partition if and only if the last sector's request was not torn, or that sector is blank |
| Dump.DeviceDumpIsPartition | client/psvemmc/psvemmc.cpp:542-559 | in a whole session the table entry used is the device's own, and the file is the partition it describes |
| Dump.TornRequestAccepted | server/src/main.c:561-569 | the answer to a torn sector request passes the client's check and carries zeros |
| ClientModule.PassesExactly | client/psvemmc/psvemmc.cpp:199-226 | a piece of a header passes if and only if some stale bytes complete it to one the client accepts |
| Dump.TornHeaderExactly | client/psvemmc/psvemmc.cpp:199-224 | when only a piece of a header comes first, the frame can be accepted if and only if the piece passes, and what the client writes is the cluster if and only if the cluster repeats the rest of the header |
| Dump.TornHeaderAccepted | client/psvemmc/psvemmc.cpp:199-226 | of the server's headers, a piece can be accepted if and only if no byte of the driver's error in it differs from 0 |
| Dump.TornHeaderSpoils | client/psvemmc/psvemmc.cpp:199-224 | for a successful read: if and only if the cluster is blank |
| DumpProgress.HealthyStep | server/src/main.c:460-647 | with the pools as the request needs them and a kernel that obliges, the connection stays open and the response is whole and acceptable |
| DumpProgress.HealthyDumpFinishes | server/src/main.c:1134-1269 | no request of a dump closes the connection if and only if the server's pool is down at the start, and then the responses are the ones the client waits for |
| DumpProgress.FinishedFoundPoolDown | server/src/main.c:466-474 | whatever the kernel and the network do, torn headers included, a dump of at least one sector that the client finishes found the server's pool down, if at most 22 greetings went before it |
| DumpProgress.OneGreeting | client/psvemmc/psvemmc.cpp:542-548 | the client greets once |
| DumpProgress.BrokenDumpBlocks | client/psvemmc/psvemmc.cpp:488-505 | after a dump that broke off between INIT and DEINIT only an empty one is finished, torn headers included |
| EndToEnd.RunDump | client/psvemmc/psvemmc.cpp:472-513 | client and server on one connection: a finished file is the partition, but for a torn last sector; on a good day the dump finishes, and is the partition |
| EndToEnd.RunDevice | client/psvemmc/psvemmc.cpp:542-559 | the same for a whole session: the table entry gone by is the device's own, and on a good day the partition it describes is dumped |
| GlobalLog.Logger.OpenGlobalLog | driver/glog.c:41-53 | the whole state after an open, for every answer of the system |
| GlobalLog.Logger.CloseGlobalLog | driver/glog.c:55-68 | the whole state after a close |
| GlobalLog.Logger.FileGlobalWriteLen | driver/glog.c:31-39 | a message reaches the file exactly when the descriptor is live |
| GlobalLog.LogSafety | driver/glog.c:41-68 | over every interleaving of balanced threads the counter is the sum of their depths, at most one handle is open, and none once it is 0 |
| GlobalLog.InsideSeesOneDescriptor | driver/glog.c:31-68 | between its own open and close a thread sees one descriptor, and if it is live every message reaches the file in order |
| GlobalLog.PoisonedForever | driver/glog.c:45-48 | the descriptor is a negative code other than -1 exactly after some open was answered so, and then for good |
| GlobalLog.RetryExactly | driver/glog.c:45-50 | without such an answer the system is asked for the file exactly when the counter goes from 0 to 1 |
| GlobalLog.LiveExactly | driver/glog.c:41-68 | over every sequence of calls, balanced or not, with opens granted, the descriptor is live if and only if there were more opens than closes |
| GlobalLog.MessageKeptExactly | driver/glog.c:31-68 | and a message reaches the file if and only if that is so when it is written |
| GlobalLog.FileExactly | driver/glog.c:31-68 | the whole file after such a sequence: exactly those messages, in order |
| GlobalLog.FileGrows | driver/glog.c:31-68 | whatever the system answers, nothing that reached the file is lost |
| GlobalLog.RunIsCalls | driver/glog.c:31-68 | an interleaving of balanced threads is such a sequence |
| GlobalLog.UnbalancedCloseLosesMessages | driver/glog.c:55-61 | one close too many, and the next open and write reach no file, whatever the system answers |

## Left out

- ServerModule.Server.ReceiveCommands: a client whose cluster writes do not carry as many bytes as the server's geometry
  says when its turn comes is not covered; where its next request starts is then not the client's to say.
- A negative partition index, which the client's argument check lets through, reads before the partition table; the entry
  it finds there is a parameter (`ClientModule.Pick`).
- Sockets: a message of at most 22 bytes is taken to leave in one `send`, and a connection on which a `send` failed to
  stay down, since the server looks at neither.
- A `recv` that keeps returning 0 makes the client ask for ever; such a run never finishes and ends as `Pending`.
- Signed products are taken to wrap at 32 bits, and the kernel to grant a pool only for a size that is a non-negative
  32-bit int after wrapping; what a cluster that overruns its block does to other memory is not modelled; a read of freed
  or missing pool memory yields unspecified bytes, a write to it is forgotten.
- The sort is proved on an array of whole elements; its exchanges are tied to memory by `BlockSwap`, not by a second copy
  of the sort on bytes. The array of module ids, which the kernel fills and hands back, is not kept.
- The table must have room for the slots written and the final sentinel (`ModuleTable.Fits`): the code does not check.
- Locks are taken to succeed; the return codes of mutex and write calls, which the log ignores, are not modelled.
- Not modelled: hooks and patches, memory and thread dumps, socket set-up, console and log text, argument parsing, the
  names of partition codes and types. `error_logger/qsort.c`, `error_logger/mtable.c` and `driver/sdstor_log.c` repeat
  code that is modelled once.
