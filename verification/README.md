# Linux driver samples: a verified model

This project models the self-contained algorithms of a collection of Linux driver and
netlink samples, and proves what they are for. One module models one component.

- `Bytes` – little-endian words, the four-byte alignment of the netlink macros, memory copies.
- `RtAttr` – routing attributes. `rtattr_add` appends type-length-value records to a message
  in place, `parseRtattr` walks them back into a table. The format is a relation between
  bytes and attributes (`Laid`) that says nothing about padding, so every theorem holds
  whatever the uninitialised padding contains. RFC 3549, sections 2.3.2 and 3.1.1, and the
  public netlink headers give the layouts: alignment 4, `rtattr` 4 bytes, `nlmsghdr` 16,
  `rtmsg` 12.
- `Route` – `do_route`, which composes a whole request in an uninitialised struct.
- `NlStream` – buffers of concatenated messages. `Netmon` is the monitor's loop over them,
  `NetmonTables` says when the two attribute tables it fills for each message are right, and
  `Multicast` is the loop of the kernel module.
- `Gearbox`, `VMouse`, `Mailbox` – the virtual mouse: the reaction to one event, the driver's
  struct with its methods, and every interleaving of the key filter with the work item. The
  interleaving is finer than one atomic filter call: the filter stores the code, stores the
  value and schedules the work in three separate steps, and the work item reads code and
  value in two.
- `BlockDev` – the RAM disk, whose requests are lists of memory segments.
- `OrderedTree`, `TreeMap`, `RbTree` – the tree: its shapes as values, what they mean as maps,
  and the loops on the heap. Insertion compares `key`, search compares `val`.
- `PagedRam` – the physical-memory device, read one page at a time, and the program that
  shows the descriptor table through it.
- `MpTable` – the scan for the MP floating pointer structure and the walk over the base table
  of the Intel MultiProcessor Specification 1.4, sections 4.1 to 4.3.

Code that works by assignment is modelled by methods over arrays and classes; each is proved
against a function of the old state, and the theorems are lemmas about those functions.

## What turned out false of the code

- `rtattr_add` lays out its attribute if and only if type and length fit their 16-bit fields
  (`RtAttr.AddLaysOut`); over any sequence of calls the attributes are read back if and only
  if all those accepted fit (`RtAttr.RoundTrip`). A payload of 65532 bytes is lost
  (`RtAttr.LongPayloadLost`).
- The monitor gives `parseRtattr` the length of the whole message, so both walks run on behind
  it. The table is still right if and only if every attribute picked up there has a type
  beyond the table (`RtAttr.OverrunIff`). With another message behind the attributes that is
  so if and only if that message is longer than the overrun (`NetmonTables.OverrunIntoNext`);
  a shorter one appears in slot 0 (`NetmonTables.NextInSlotZero`), which the monitor does not
  use. The slots that it uses are right if and only if the bytes behind the data received do
  not look like such an attribute (`NetmonTables.LinkNameIff`, `NetmonTables.LocalIff`);
  `NetmonTables.StaleName` is a message for which they do.
- The name of an address message is looked for at the offset for link messages, 8 bytes into
  its attributes. Where that walk falls in step with them, `NetmonTables.AddressNameInStep`
  says exactly when the name is right; one IPv4 address before the others is such a case
  (`NetmonTables.AddressNameIff`). `NetmonTables.AddressNameMet` says it for all address
  messages, in terms of the attributes that the bytes read from there look like;
  `NetmonTables.StrayName` finds a name inside an address.
- These walks read behind the data received if and only if the end they are given lies four or
  more bytes behind (`NetmonTables.TableReadsBehindIff`), so for the last message always, as in
  `NetmonTables.StaleName`.
- The monitor's loop skips a rejected header without moving on, so it gets through a datagram
  if and only if no header is rejected (`Netmon.MonitorEndsIff`), that is, if and only if the
  bytes are whole messages (`Netmon.AcceptsIffMessages`). A length of 0 is enough
  (`Netmon.ZeroLengthSticks`).
- The kernel module looks at the header behind a message before it knows that there is one.
  On a stream it looks outside the data if and only if it dumps the last message
  (`Multicast.StreamPeeksIff`), for example a lone MULTI message
  (`Multicast.LoneMultiPeeksOutside`).
- Not every posted key event is handled exactly once. It is so if and only if no code is
  stored while a run is pending or about to read one, and no value while a run stands between
  its two reads (`Mailbox.OnceEachIff`). An event can be handled three times while earlier
  ones are lost (`Mailbox.ThriceHappens`), its code or its value never four times
  (`Mailbox.AtMostThrice`), and an event can be handled that was never posted (`Mailbox.TornHappens`).
- The search of the tree finds every node if and only if the tree is in order by `val`
  (`OrderedTree.AllFoundIff`), that is, if the map it stands for is strictly increasing
  (`TreeMap.SearchableIff`); the replacement in `mod_init` breaks that
  (`OrderedTree.DemoReplacement`), and `OrderedTree.ReplaceKeepsSearchIff` says which
  replacements do not.
- Descriptor reads are never short if and only if the table ends inside memory and is aligned
  or within one page (`PagedRam.WholeReadsIff`); `PagedRam.BrokenTable` is one that is not.
- `bitlen` is a `char`: where that is signed, 128 does not survive (`Route.BitlenExact`). The
  other theorems about `do_route` take the intended, unsigned value.

## Model

| member | source | states |
|---|---|---|
| Bytes.AlignFormula | netlink/set_route.c:50-63 | NLMSG_ALIGN and RTA_ALIGN round up to the next multiple of four, as the mask formula does |
| RtAttr.RtattrAdd | netlink/set_route.c:45-66 | succeeds exactly when the aligned message and attribute fit the bound; then the buffer is the old one with the record at the aligned tail and the new length, otherwise it is untouched |
| RtAttr.AddFrame | netlink/set_route.c:55-63 | an added attribute leaves the rest of the header, the earlier attributes, its own padding and everything behind it as they were |
| RtAttr.AddLength | netlink/set_route.c:63 | the new message length is aligned and grows by the padded size |
| RtAttr.AddLaysOut | netlink/set_route.c:45-66 | the region then holds the earlier attributes followed by the new one if and only if type and length fit 16 bits |
| RtAttr.AddEachLaysOut | netlink/set_route.c:45-66 | after any sequence of calls, failing ones included, on any buffer, the region holds exactly the accepted attributes in order if and only if each fits its 16-bit fields |
| RtAttr.LaidUnique | netlink/netmon.c:10-20 | bytes determine the list of attributes: the format is unambiguous |
| RtAttr.Walk | netlink/netmon.c:14-19 | on arbitrary bytes the walk ends, within a quarter of the length, and visits only attributes that lie wholly inside the region |
| RtAttr.ParseRtattr | netlink/netmon.c:10-20 | each slot up to max points to the last visited attribute of its type or is null; slots beyond are untouched |
| RtAttr.WalkLaid | netlink/netmon.c:14-19 | whole attributes followed by any bytes are walked as those attributes and then the rest |
| RtAttr.ParseComposes | netlink/netmon.c:10-20 | parsing attributes followed by any bytes is the first table overridden by the second |
| RtAttr.StopsAtEndIffLaid | netlink/netmon.c:14-19 | a region is used up exactly if and only if it is a list of whole attributes, namely the ones visited |
| RtAttr.ParseLaid | netlink/netmon.c:10-20 | over laid-out attributes the walk ends at the end and finds the last attribute of each type, header and payload |
| RtAttr.TableShows | netlink/netmon.c:10-20 | the whole table of parseRtattr shows, per type, the last attribute laid out, or null |
| RtAttr.RoundTrip | netlink/set_route.c:45-66 | after any sequence of rtattr_add calls, parsing the region consumes it exactly and meets the accepted attributes in order, iff each fits its 16-bit fields |
| RtAttr.RoundTripTable | netlink/netmon.c:10-20 | the table filled then shows, for each type, the last attribute accepted with it, or null |
| RtAttr.LongPayloadLost | netlink/set_route.c:47-63 | 65532 bytes of payload: the length is stored as 0 and no reader finds the attribute |
| RtAttr.OverrunIff | netlink/netmon.c:101-127 | parsing beyond the attributes leaves the table right if and only if every attribute picked up has a type beyond it |
| Route.InitRequest | netlink/set_route.c:76-98 | the fixed fields by offset and value, with protocol and type left uninitialised when a route is deleted, and the scope by address family |
| Route.AppendAttr | netlink/set_route.c:102-113 | within do_route the bound of rtattr_add is never hit and the headers are kept |
| Route.SetGateway | netlink/set_route.c:101-105 | a gateway's family and universal scope replace those of the destination |
| Route.AddDestination | netlink/set_route.c:108-114 | destination and interface follow the attributes already there |
| Route.DoRoute | netlink/set_route.c:68-114 | whatever the struct held, the request carries exactly the intended headers and attributes |
| Route.RouteDecodes | netlink/set_route.c:100-114 | a reader consumes the attributes exactly and finds the gateway iff one was given, destination and interface iff the route is not a default one, and nothing else |
| Route.GatewayBytes | netlink/set_route.c:102 | the gateway attribute holds the first bitlen / 8 bytes of the gateway, in order |
| Route.DestinationBytes | netlink/set_route.c:110 | the destination attribute holds the first bitlen / 8 bytes of the destination, in order |
| Route.InterfaceBytes | netlink/set_route.c:113 | the interface attribute holds the index as a 32-bit word |
| Route.RouteOrder | netlink/set_route.c:100-114 | gateway first if there is one, then destination, interface last |
| Route.RouteLength | netlink/set_route.c:77-114 | the final length is 28 plus the aligned attribute sizes, for every combination of addresses |
| Route.BitlenExact | netlink/set_route.c:33-37 | the byte count passed on is the address's iff char is unsigned or the address is not IPv6 |
| NlStream.MsgBytesRead | netlink/netlink_multicast.c:116-124 | the bytes of a message in the order of nlmsghdr are read back as that message |
| Netmon.AcceptedAdvances | netlink/netmon.c:83-90 | a header that passes the 32-bit test moves the scan on by at least a header |
| Netmon.Monitor | netlink/netmon.c:82-155 | on any datagram the loop visits the headers up to the first rejected one, makes of each what its two tables and its type say, and gets stuck iff a header is rejected |
| Netmon.SlotIsLast | netlink/netmon.c:10-20 | an entry of the table is the last attribute of its type found by reading on from the first |
| Netmon.MonitorVisitsStream | netlink/netmon.c:82-155 | every message of a well-formed datagram is visited exactly once, in order |
| Netmon.MonitorEndsIff | netlink/netmon.c:82-90 | the loop comes to an end iff it meets no rejected header; otherwise it repeats that header forever |
| Netmon.AcceptsIffMessages | netlink/netmon.c:82-90 | no header is rejected iff the bytes are whole messages, the last one's padding aside, followed by less than a header or by a length at which the subtraction wraps |
| Netmon.ZeroLengthSticks | netlink/netmon.c:83-90 | a header of length 0 is never passed |
| NetmonTables.OverrunIntoNext | netlink/netmon.c:101-127 | with another message behind the attributes, the table is right iff that message is longer than the overrun |
| NetmonTables.EachReceived | netlink/netmon.c:82-127 | each message of a well-formed datagram meets the conditions of the theorems about tables |
| NetmonTables.OverrunPicks | netlink/netmon.c:101-127 | over whole messages a walk picks up nothing of type 1 and up, however long they are |
| NetmonTables.LinkNameIff | netlink/netmon.c:103-107 | the name of a link message, the last one of its datagram included, is that of its attributes iff the bytes reached behind the data do not look like a name |
| NetmonTables.LinkNameShows | netlink/netmon.c:103-107 | unless something stale looks like a name, the name shown is the last one among the attributes laid out in the link message, or none |
| NetmonTables.LocalIff | netlink/netmon.c:127-131 | the same of the local address of an address message |
| NetmonTables.LocalShows | netlink/netmon.c:127-131 | the same of the local address |
| NetmonTables.NothingStale | netlink/netmon.c:101-127 | with 32 bytes of messages behind it, a message has nothing stale in its tables |
| NetmonTables.AddressNameInStep | netlink/netmon.c:103-149 | where the misplaced walk falls in step with the attributes, the name of an address message is right iff nothing stale looks like one and a name follows or the attributes before are read with the same result |
| NetmonTables.AddressNameIff | netlink/netmon.c:103-149 | in particular, if whole attributes fill the 8 bytes passed over, iff nothing stale looks like a name and these hold none or later ones hold one too |
| NetmonTables.AddressNameMet | netlink/netmon.c:103-149 | for all address messages, the name is right iff the misplaced walk meets the last attribute that holds one and nothing stale looks like one, or none holds one and the attributes that the bytes read look like include no name |
| NetmonTables.NoticeOfMessage | netlink/netmon.c:93-149 | 24 and 25 announce a change of routes, 16 and 17 a link new or gone, 20 and 21 an address, other types nothing; the flags are bits 0 and 6 of the word at payload offset 8 |
| NetmonTables.LinkAnnounced | netlink/netmon.c:93-144 | a link is announced with the last name among the attributes 32 bytes into its message, unless something stale looks like one |
| NetmonTables.AddressAnnounced | netlink/netmon.c:120-149 | a new address is announced with the last local address among the attributes 24 bytes into its message, unless something stale looks like one |
| NetmonTables.AddressNameAnnounced | netlink/netmon.c:133-149 | an address is announced with the last name among its attributes whenever that name is right |
| NetmonTables.DatagramAnnounced | netlink/netmon.c:82-155 | every message of a well-formed datagram is announced by its type and meets the conditions above |
| NetmonTables.LooksLikeSome | netlink/netmon.c:14-19 | any bytes look like some list of attributes followed by none that fits |
| NetmonTables.ReadsBelowIff | netlink/netmon.c:14-19 | on any bytes, a walk reads nothing from a limit on iff the last attribute visited and the length behind it lie below |
| NetmonTables.UnreadDoesNotMatter | netlink/netmon.c:14-19 | bytes that a walk does not read do not change its table |
| NetmonTables.TableReadsBehindIff | netlink/netmon.c:101-127 | a table reads nothing behind the data received iff the end it is given lies less than a header behind them |
| NetmonTables.StaleName | netlink/netmon.c:103-107 | a link message without attributes, for which the remains of an earlier datagram are shown as its name |
| NetmonTables.NextInSlotZero | netlink/netmon.c:103 | a 16-byte message behind a message appears in slot 0 of its table |
| NetmonTables.StrayName | netlink/netmon.c:103-149 | an address message without a name, for which bytes of its address are shown as one |
| Multicast.ReceiveMulti | netlink/netlink_multicast.c:94-130 | the loop dumps the headers that the specification lists |
| Multicast.PeeksBelowIff | netlink/netlink_multicast.c:128 | on any bytes, all looks at a next header stay below a limit iff the one behind the last message dumped does |
| Multicast.StreamPeeksIff | netlink/netlink_multicast.c:116-130 | on a stream the loop looks outside it iff it dumps its last message |
| Multicast.LoneMultiPeeksOutside | netlink/netlink_multicast.c:128 | a stream of one MULTI message makes the loop look outside it |
| Multicast.DumpsStream | netlink/netlink_multicast.c:116-130 | on any stream, and whatever lies behind it, exactly a prefix is dumped: the first message if MULTI or DONE, and on until DONE or a message without MULTI |
| Multicast.DoneEndsDump | netlink/netlink_multicast.c:116-130 | MULTI messages followed by DONE are all dumped, the DONE and what follows are not |
| Multicast.PlainEndsDump | netlink/netlink_multicast.c:116-130 | MULTI messages before one that is neither MULTI nor DONE, or before the end, are all dumped and no more |
| Multicast.DoneInFront | netlink/netlink_multicast.c:116-130 | a DONE at the front is dumped and the loop goes on behind it |
| BlockDev.Device.constructor | test_blockdev/test_blockdev.c:154-157 | the buffer is as long as the capacity says, 112 pages |
| BlockDev.Device.Transfer | test_blockdev/test_blockdev.c:80-96 | one segment is copied, clipped at the device's end |
| BlockDev.Device.DoRequest | test_blockdev/test_blockdev.c:66-104 | the loop serves the segments in order, and nr_bytes is the request's length clipped at the device's end |
| BlockDev.AfterAll | test_blockdev/test_blockdev.c:76-101 | the running state after the last segment is the request served as a whole, with the clipped byte count |
| BlockDev.CopyFitsIff | test_blockdev/test_blockdev.c:86-96 | in 64-bit arithmetic a copy stays inside the device iff the request starts there |
| BlockDev.Device.QueueRq | test_blockdev/test_blockdev.c:107-130 | BUG() is reached iff the request extends past the end; a write stores the concatenated segments, a read spreads one piece of the device over them |
| BlockDev.ServeWrites | test_blockdev/test_blockdev.c:78-101 | a segmented write equals one flat store of the concatenation and changes no memory |
| BlockDev.ServeReads | test_blockdev/test_blockdev.c:78-101 | a segmented read equals one flat fetch spread over the segments and changes no device byte |
| BlockDev.ScatterFrame | test_blockdev/test_blockdev.c:93-96 | memory apart from the segments is not touched |
| BlockDev.GatherScattered | test_blockdev/test_blockdev.c:93-96 | segments that do not overlap hold the bytes read followed by their old excess |
| BlockDev.RunIsItsWrites | test_blockdev/test_blockdev.c:66-104 | any run of requests amounts to its writes in order; reads and segmentation drop out |
| BlockDev.LastWriterWins | test_blockdev/test_blockdev.c:78-101 | after any run each byte is that of the latest write covering it |
| BlockDev.ReadsBackLatest | test_blockdev/test_blockdev.c:78-101 | a read under any segmentation returns what the latest covering writes stored under any other |
| BlockDev.DisjointWritesCommute | test_blockdev/test_blockdev.c:90-92 | writes to disjoint ranges commute |
| OrderedTree.PresentIffStored | rbtree/rbtree.c:37-61 | in a tree in order by key the descent meets a key iff some node has it |
| OrderedTree.InsNodes | rbtree/rbtree.c:36-63 | insertion adds exactly the new node, or nothing if the key is met |
| OrderedTree.InsKeepsOrder | rbtree/rbtree.c:36-63 | insertion keeps the strict order by key |
| OrderedTree.RotateKeepsInorder | rbtree/rbtree.c:64 | a rotation anywhere keeps the traversal |
| OrderedTree.FindSound | rbtree/rbtree.c:75-102 | on any tree, a node returned is in the tree and has the value sought |
| OrderedTree.AllFoundIff | rbtree/rbtree.c:75-102 | every node is found by its value iff the traversal is strictly increasing by val |
| OrderedTree.FindComplete | rbtree/rbtree.c:75-102 | on such trees null is returned iff no node has the value |
| OrderedTree.ReplaceKeepsSearchIff | rbtree/rbtree.c:190-195 | a replacement keeps the search complete iff the new value lies strictly between its neighbours |
| OrderedTree.DemoReplacement | rbtree/rbtree.c:190-206 | after key 2 gets value 100, in a tree of any shape, the search for 2 fails although the key is there |
| TreeMap.InsContents | rbtree/rbtree.c:22-70 | insertion into a tree in order refines insertion into a map that keeps existing keys |
| TreeMap.FirstWins | rbtree/rbtree.c:136-149 | the first pair of the array with a new key decides its value |
| TreeMap.AddAllKeys | rbtree/rbtree.c:136-149 | the keys are the old ones and those of the array, and old keys keep their values |
| TreeMap.SortedListUnique | rbtree/rbtree.c:136-149 | the traversal of a tree is determined by its map: the sorted list of its pairs |
| TreeMap.OrderDoesNotMatter | rbtree/rbtree.c:136-149 | arrays that are permutations of each other give the same keys in the same order |
| TreeMap.SearchableIff | rbtree/rbtree.c:75-102 | the search of a tree in order by key is complete iff the map that the tree stands for is strictly increasing |
| TreeMap.DiagonalSearch | rbtree/rbtree.c:158-187 | a tree built from equal keys and values is searched correctly: found iff in the array |
| RbTree.Linked | rbtree/rbtree.c:36-63 | storing through the link where the descent ended inserts into the shape at every level above, parent pointers included |
| RbTree.Root.LinkNode | rbtree/rbtree.c:63 | linking the node keeps the heap tree-shaped and makes it the shape with the node inserted |
| RbTree.Root.RbInsertColor | rbtree/rbtree.c:64 | any sequence of rotations on the heap keeps a valid tree and its traversal |
| RbTree.Root.Insert | rbtree/rbtree.c:22-70 | the descent through links ends; a new key adds its node in order, a present key changes nothing on the heap; the tree refines a map |
| RbTree.Root.InsertArr | rbtree/rbtree.c:136-149 | the tree's map becomes the old one with the array's pairs added, first occurrence first |
| RbTree.Root.Search | rbtree/rbtree.c:75-102 | on every heap tree, in order or not, the loop returns what the descent by val finds in the shape |
| PagedRam.ReadInside | dram/dram.c:203-215 | a read stays within its page and within memory, and makes progress |
| PagedRam.File.MapPage | dram/dram.c:205-215 | the mapped bytes are flat memory at the file position |
| PagedRam.File.DevRead | dram/dram.c:196-230 | delivers flat memory and advances, as much as asked for or else exactly to the end of the page; on a failed copy reports EFAULT and keeps the position |
| PagedRam.File.DevLseek | dram/dram.c:232-246 | seeks from the start, by an offset from the position, or from the end, iff the target is inside memory or at its end, else EINVAL and no change |
| PagedRam.SeekLaws | dram/dram.c:232-246 | seeking by 0 tells, from the end finds the end, seeks from the position add up, seeks from the end forget it, other origins do nothing |
| PagedRam.ShortAtPageEnd | dram/dram.c:215 | a read is short iff it would go beyond its page, and then ends at the end of it |
| PagedRam.RunStaysInside | dram/dram.c:196-246 | no run of reads and seeks moves the position out of memory |
| PagedRam.ReadsReassemble | dram/dram.c:196-230 | whatever counts are asked for, successive reads deliver one contiguous piece of flat memory |
| PagedRam.ReadRange | dram/dram.c:196-230 | reading from a to b delivers exactly those bytes, in one call per page touched |
| PagedRam.WholeReadsIff | dram/showgdt.c:52-59 | no descriptor read is short iff the table ends in memory and is 8-aligned or within one page |
| PagedRam.BrokenTable | dram/showgdt.c:52-59 | the first descriptor of a table at 4092 is cut in two |
| PagedRam.ShowGdt | dram/showgdt.c:34-60 | as many descriptors are shown as the limit says, and for an unbroken table in memory each is the 8 bytes stored |
| MpTable.SmpInfo.Init | smpinfo/smpinfo.c:98-125 | takes the first paragraph from 0xF0000 on with the signature _MP_, or answers ENODEV iff there is none; table and base length are the words at offset 4, byte by byte |
| MpTable.LowHalf | smpinfo/smpinfo.c:121 | of the int loaded, only the 16-bit length survives, whatever bytes 6 and 7 hold |
| MpTable.SmpInfo.Show | smpinfo/smpinfo.c:28-60 | shows the structure, the header and the rows of the walk; a base table encoded from processor and other entries is shown entry by entry |
| MpTable.RowsTile | smpinfo/smpinfo.c:48-55 | on any bytes the rows tile the table without gap or overlap up to where the walk stops |
| MpTable.RowsOfEntries | smpinfo/smpinfo.c:48-55 | a table of whole entries is split at exactly their boundaries and the walk ends at its length |
| MpTable.EncodedShown | smpinfo/smpinfo.c:48-55 | round trip: entries as data, type 0 with 19 bytes more and other types with 7, are recovered from their concatenation, for every list |
| MpTable.EndsExactlyIff | smpinfo/smpinfo.c:48-55 | on any bytes the walk ends at the length iff the table is made of some list of whole entries |
| Gearbox.ShiftGeared | vmouse_driver/vmouse.c:89-124 | on any value, a torn one included, some k up to 5 has speed 2^(k+1), threshold 2k+1 and a count below it |
| Gearbox.LevelIsRoot | vmouse_driver/vmouse.c:107-121 | the gear after n repeats is the integer square root of n, up to 5 |
| Gearbox.PressNext | vmouse_driver/vmouse.c:107-121 | one more repeat takes the closed form of gear and motion from n to n + 1 |
| Gearbox.ClosedForm | vmouse_driver/vmouse.c:89-155 | after a DOWN and any events whose direction keys all repeat, n times, with k the integer square root of n up to 5: speed 2^(k+1), threshold 2k+1, and total motion (n - k*k + 2k - 2) 2^(k+1) + 6 |
| Gearbox.HandleEffect | vmouse_driver/vmouse.c:126-175 | one event moves the cursor, turns the wheel or sets a button as its key code says: 25 up, 49 down, 48 left, 33 right, 47 and 22 the wheel, 57 the left button, 50 the right one |
| Gearbox.NetEffect | vmouse_driver/vmouse.c:126-175 | over any list of events, with signs: each direction comes from its own key at the speeds then in force, the wheel from its two keys, each button gets the values of its own key |
| Gearbox.SignedClosedForm | vmouse_driver/vmouse.c:89-155 | a key held down alone moves the cursor by the closed form, straight in its own direction |
| Gearbox.UpClearsCount | vmouse_driver/vmouse.c:96-98 | an UP clears the count and keeps speed and threshold |
| Gearbox.ClosedFormWithUps | vmouse_driver/vmouse.c:89-155 | in any mix of repeats and releases after a DOWN: the gear is that of the repeats not thrown back, the motion the closed form plus what each UP throws back |
| Gearbox.UpNext | vmouse_driver/vmouse.c:96-98 | an UP after n repeats leads back to the last shift, and its share of the motion is (n - k*k + 1) times the speed |
| Gearbox.KeepHolds | vmouse_driver/vmouse.c:99-121 | with keep_speed on no event changes speed or threshold; DOWN and UP clear the count, repeats do not count |
| Gearbox.OthersDoNotShift | vmouse_driver/vmouse.c:89-152 | other keys and other values leave the gear alone |
| Gearbox.ClampWheel | vmouse_driver/vmouse.c:60-76 | the number in 1..7 that is nearest to the one given |
| VMouse.VMouse.constructor | vmouse_driver/vmouse.c:313-323 | the initial state: speed 2, threshold 1, wheel 5, nothing held, nothing sent |
| VMouse.VMouse.WheelSpeedStore | vmouse_driver/vmouse.c:65-80 | stores the nearest permitted speed and nothing else |
| VMouse.VMouse.Gearbox | vmouse_driver/vmouse.c:89-124 | the assignments amount to one shift |
| VMouse.VMouse.VmsFunc | vmouse_driver/vmouse.c:126-175 | handles the event in the slot: the gear shifts, the cursor, wheel or button changes as the key code says, and nothing else |
| VMouse.VMouse.VkbdFilter | vmouse_driver/vmouse.c:177-237 | a call run on its own does what its small steps do in sequence, and takes away modifiers while keep_speed is set and the eight mouse keys while both modifiers are held, and nothing else |
| VMouse.CallPostsIff | vmouse_driver/vmouse.c:183-217 | a call posts its event iff both modifiers are then held, unless it is a modifier while keep_speed is set; otherwise the slot is untouched |
| VMouse.HistoryOfKeys | vmouse_driver/vmouse.c:183-207 | over every history of events the modifier fields hold the latest values of their keys and keep_speed is the parity of CAPSLOCK presses |
| VMouse.HistorySwallows | vmouse_driver/vmouse.c:183-235 | after any history: an event is taken away iff it is a modifier after an odd number of CAPSLOCK presses or a mouse key while both modifiers were last seen held |
| VMouse.FinishPost | vmouse_driver/vmouse.c:212-217 | the small steps of a post store code and value and make work pending |
| Mailbox.AlwaysInv | vmouse_driver/vmouse.c:126-237 | all invariants hold in every state that any interleaving reaches |
| Mailbox.QuietIsUpToDate | vmouse_driver/vmouse.c:126-237 | at rest, the last run took code and value of the very last event posted, by its number; runs never exceed posts |
| Mailbox.NothingLost | vmouse_driver/vmouse.c:212-217 | at any moment, for every event posted, by its number, work is pending or a run started after it that reads it or a later one |
| Mailbox.LastNotLost | vmouse_driver/vmouse.c:212-217 | between posts, without work pending, the last run is about to read the last event, or holds its code and value, or has handled them |
| Mailbox.OnceEachIff | vmouse_driver/vmouse.c:126-237 | at rest, every event posted has been handled exactly once, whole and in order, iff no store of a code found a run pending or about to read, and no store of a value a run between its reads |
| Mailbox.AtMostThrice | vmouse_driver/vmouse.c:126-237 | codes and values are handled in the order written, and neither the code nor the value of an event more than three times |
| Mailbox.TornOnlySo | vmouse_driver/vmouse.c:126-237 | a run pairs a code only with the value of the event before, of its own event or of a later one, and values are handled in the order written |
| Mailbox.ThriceHappens | vmouse_driver/vmouse.c:126-237 | a run in which one key repeat is handled whole three times, and of the two events before it neither code nor value |
| Mailbox.TornHappens | vmouse_driver/vmouse.c:126-237 | a run in which an event is handled that was never posted, the code of one with the value of another |
| Mailbox.AlwaysGeared | vmouse_driver/vmouse.c:60-237 | in every state reached the mouse is in a gear, the wheel speed in range, and keep_speed the parity of CAPSLOCK presses |
| Mailbox.SpeedKept | vmouse_driver/vmouse.c:89-206 | while keep_speed is set and until the next CAPSLOCK press nothing changes speed or threshold |

## Left out

- RtAttr.RtattrAdd: bound and payload must fit an int, and the 32-bit sum in the bound check must not wrap.
- Route.DoRoute: bitlen is the intended unsigned value; where char is signed, BitlenExact says for which addresses that holds, and for the others the source passes a negative count to memcpy, which is undefined. Sending the struct, parsing addresses and the command line are not modelled; the results of rtattr_add are ignored as in the source, because the bound is never hit.
- Netmon.Monitor: the source repeats a rejected header forever, the model stops there and says so. The memory must be readable for 32 bytes behind the data received; which of these are read, ReadsBelowIff and TableReadsBehindIff say, and by UnreadDoesNotMatter the others may hold anything. Receiving and printing are not modelled.
- Multicast.ReceiveMulti: requires that the looks at a next header stay in readable memory, which PeeksBelowIff and StreamPeeksIff characterise; the reply that is sent afterwards is not modelled.
- BlockDev.Device.DoRequest: requires a start inside the device, which the block layer checks, so that no other request reaches the driver; by CopyFitsIff the copies of such a one would leave the device; blk_update_request is modelled by its answer.
- RbTree.Root.RbInsertColor: the library's rebalancing is replaced by an arbitrary list of rotations given by the caller, which it is a special case of; colours are not modelled.
- OrderedTree.DemoReplacement: rb_replace_node acts on the shape only; rb_erase, the dumps and destroy_tree are library calls and not modelled.
- RbTree.Root.InsertArr: the node of a pair whose key is present is allocated and never linked, as in the source; the leak is not stated. A failing allocation is not modelled.
- PagedRam.File.DevRead: one mapping call stands for kmap and kunmap; page numbers beyond an int are not modelled.
- PagedRam.ShowGdt: the page size must be a multiple of eight, and copies to the descriptor succeed.
- MpTable.SmpInfo.Init: the pointer found must lead into mapped memory; the proc file is not modelled.
- Mailbox.AlwaysInv: one keyboard, so calls of the filter do not overlap each other; the work item never runs on two processors at once, as the workqueue guarantees; the pending bit clears before the work item runs.
- Gearbox.ShiftGeared: speeds are unbounded integers, which is exact because they stay at most 64.
- The kernel maple tree tests, xarray, vma, the sender program and the remaining demos: concrete-value tests, hardware dumps or plumbing without a property that spans operations.
- Device registration, module loading and unloading, and the implementation of locks and workqueues.
