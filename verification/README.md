# timps: a verified model of its stateful cores

timps is a transparent instant-messaging proxy written in C. It sits between OSCAR clients and
servers, takes the byte streams apart into FLAP frames and SNACs, and forwards, rewrites or routes
them. This project models the parts of it whose correctness depends on state, loops and fixed-width
fields, and proves what they keep.

Each component has a specification on values (functions over sequences and maps) and, where the
source works in place, a class or method with the same control flow proved against that
specification. The theorems are lemmas about the specification.

| files | component |
|---|---|
| `Cascade.dfy`, `ConnTable.dfy` | connection records, and what dies when one is freed |
| `Names.dfy`, `Registry.dfy` | screen-name equality and hashing; the node registry |
| `Wire.dfy`, `Sbuf.dfy`, `Tlv.dfy`, `Snac.dfy` | cursor buffers, TLV lists, user-info blocks |
| `Flap.dfy`, `FlapConn.dfy` | FLAP stream reassembly, forwarding, sequence stamping |
| `CookieCache.dfy`, `Handoff.dfy` | the login handoff |
| `Icbm.dfy`, `IcbmText.dfy`, `IcbmRead.dfy`, `Relay.dfy` | message text extraction, reading the text, and relaying |
| `Checksum.dfy`, `Ipv4.dfy` | IPv4 header checksum and packets |
| `Pool.dfy` | the bitmap block pool |
| `Xml.dfy`, `XmlTree.dfy` | XML escaping; two-pass rendering of trees, and reading them back |
| `AgeCache.dfy` | timed caches |

## Conventions

- Pointers to connections and nodes are numbers, and the records live in a map. Freeing a record
  removes its key, so every access carries the obligation that the record has not been freed.
- Linked lists are sequences. A descriptor that was closed stays on the connection list, and the
  traversals skip it, as naf/conn.c:205 relies on.
- Clocks, the outcome of socket calls, DNS, handler verdicts and uninitialised memory are parameters.
- Widths are explicit: 8, 16 and 32 bits where the source has them. Characters of names are 7-bit.
- `hide` statements only narrow what the verifier may unfold.

## Where the code and its promises differ

For each difference the members named give the exact condition under which the promise is kept, and
inputs for which it is not.

- gnr/node.c:276 says that name comparison ignores space and case. Spaces at the end count:
  `Names.NameCmp`, `Names.TrailingSpaceDistinguishes`. The uniqueness promised in
  include/gnr/gnrnode.h:51-52 is lost with it: `Registry.Table.Online` says when,
  `Registry.SpacingNotUnique` reaches such a registry.
- naf/ipv4/ipv4.c:326-330 promises the one's-complement checksum. One fold is not always enough:
  `Checksum.ChecksumCorrectIff` says exactly when it is, `Checksum.ChecksumOffByOne` shows a header,
  `Ipv4.InputAcceptsCorrectIff` says which correct packets are refused, `Ipv4.CorrectRefused` shows one.
- timps/oscar/snac.c:280-285 promises that a rewritten login reply keeps unknown TLVs. Rendering
  stops at a full buffer, even one that could grow, and goes on behind a refused growth:
  `Tlv.RenderIff` says exactly when nothing is lost, `Handoff.ReplyArrivesIff` what that means for
  the client, `Handoff.UnluckyReply` shows replies whose server address is lost.
- naf/tlv.c:112-115 parses without a limit and does not return on every input:
  `Tlv.ParseTerminatesIff` says on which it does, `Tlv.StrayByte` shows one.
- timps/oscar/im.c:84 wraps the value of a message TLV. Without a value the buffer is a fresh one of
  512 uninitialised bytes that can grow: `Icbm.DeterminedIff`, `Icbm.EmptyShowsMemory`,
  `Icbm.EmptyNeverEnds`, `Relay.EmptyRelayed`.
- timps/oscar/im.c:232-239 promises to pass along what the text does not express. Text behind a NUL
  is taken for expressed and lost: `Relay.ConveysIff`, `Relay.TextSent`, `Icbm.CutIff`, `Relay.NulCut`.
  So is a blank message TLV with a second one behind it: `Relay.BlankLost`.
- timps/oscar/im.c:129-136 means to write characters outside ASCII as HTML. The references written
  have hexadecimal digits in decimal syntax, and none of them stands for its character in HTML:
  `IcbmRead.NeverHtml`. Read as hexadecimal, they say which characters were sent exactly when the
  text holds no such sequence of its own: `IcbmRead.MessageRead`.
- timps/oscar/im.c:633 says that requests for acknowledgement are not sent to clients. A second one
  is: `Relay.ConveysIff`, `Relay.AckGetsThrough`.
- naf/sbuf.c:110 promises room for what was asked. Lengths have 16 bits and can wrap:
  `Wire.OverrunIff`; for packets, `Ipv4.Output`; for nested lists, `Tlv.AddTlv`.
- naf/memory.c:508 lets through a block number equal to the block count: `Pool.Pool.BlkFree`. Offsets
  and the region's length are computed in 32 bits: `Pool.InsideIff`, `Pool.DisjointIff`,
  `Pool.WrappedPool`, `Pool.Pool.AllocThenFree`.
- naf/ipv4/ipv4.c:475-504 does not compare the total length with the header length:
  `Ipv4.PayloadInsideIff`, `Ipv4.ShortTotalAccepted`.
- libmx/src/lmx.c:457-459 compares an escape only as far as the text reaches: `Xml.StoredIff`,
  `Xml.CutShort`.

In one place the code is better than its comment: naf/conn.c:248-253 doubts whether freeing may
recurse inside traversals. It may, by `ConnTable.Table.FreeConn`.

## Model

| member | source | states |
|---|---|---|
| ConnTable.Table.FreeConn | naf/conn.c:195-284 | the mutually recursive free terminates, never touches a freed record, and leaves exactly the records outside the cascade, with every link into it cleared; the open count drops by the number freed; what is gone besides the connection itself had neither bit of 0x08040000, and an open record without them goes with its endpoint or parent |
| ConnTable.Table.RemLinks | naf/conn.c:195-246 | one traversal, in the middle of any cascade: only records that must die were killed, spared ones only lost links to the dead, and no open record still has the link followed |
| ConnTable.Table.Sever | naf/conn.c:208-215 | the link is cleared; an exempt connection lives on, any other is freed with its whole cascade, and links cleared before stay cleared |
| Cascade.VictimsLeast | naf/conn.c:195-284 | the freed set is contained in every set that holds the connection and is closed under dependence, so it is the least one |
| Cascade.VictimsAreChained | naf/conn.c:195-284 | a connection dies exactly when a chain of non-exempt dependents leads to it from the one freed |
| Cascade.ProgressKill | naf/conn.c:208-215 | killing a dependent in mid-traversal, with its whole own cascade, keeps the traversal's invariant |
| Cascade.ProgressDone | naf/conn.c:255-284 | when both traversals are over, what was killed is the least closed set and what is left is the pruned graph |
| Cascade.FreeKeepsSettled | naf/conn.c:255-284 | from a state without dangling links, freeing leads to one without dangling links, and the counts add up |
| Cascade.FreedBits | include/naf/nafconn.h:76-98 | who dies with a connection, in the bits of the type: only records without 0x08040000, and every open one of them whose endpoint or parent is gone |
| ConnTable.Table.HandleEof | naf/conn.c:409-428 | exactly the cascade of the closed connection is gone, in the same bits, no survivor's link dangles, and the open count equals the number of live connections again; the loop stops exactly for a listener, bit 0x00400000 |
| ConnTable.Table.AddConn | naf/conn.c:516-532 | one more open record, or, when the descriptor is refused, the state as before; the count stays exact |
| ConnTable.Table.StartConnect | naf/conn.c:877-925 | the two connections become each other's endpoint, whatever type takeconn gave the new one, and leave the RAWWAITING state together, all in bits: client becomes server, connecting while in progress; a refused descriptor leaves the local one without endpoint |
| ConnTable.Table.Join | naf/conn.c:909-919 | both ends point at each other and lose bit 0x02000000 together, exactly when the local one had it; every other record is as before |
| ConnTable.Table.OpenThenHangUp | naf/conn.c:208-215 | opening a server connection for a client and then losing the client frees the new connection exactly when the client's type has neither the LOCAL nor the PROROGUEDEATH bit |
| ConnTable.StartedBits | naf/conn.c:877-925 | the kind of the new connection, bit by bit |
| ConnTable.LoopJoins | naf/conn.c:909-919 | looping two connections makes the links mutual, clears bit 0x02000000 of both exactly when the local one has it, and changes nothing else |
| ConnTable.Table.Adopt | include/naf/nafconn.h:125-128 | setting a parent keeps the table without dangling links |
| Names.NameCmp | gnr/node.c:275-307 | the two-cursor loop finds names with different folded texts different, and of names that differ only in space and case equal exactly those that end in equally many spaces |
| Names.NameEqEquivalence | gnr/node.c:280-307 | the comparison is an equivalence relation |
| Names.TrailingSpaceDistinguishes | gnr/node.c:275-307 | two names, equal but for a space at the end, that compare different |
| Names.SolidNames | gnr/node.c:280-307 | names without spaces are equal exactly when they are equal character by character, up to the case of the 26 letters |
| Names.SpaceInside | gnr/node.c:280-307 | a space in front of another character makes no difference, wherever it is |
| Names.SpaceAtEnd | gnr/node.c:280-307 | a name that ends in a space equals exactly those that end in one as well and are equal without it |
| Names.HashKey | gnr/node.c:118-130 | the 16-bit key loop computes the mixed key of the name |
| Names.KeySeesFoldedText | gnr/node.c:118-130 | the key depends on the folded text only |
| Names.KeyIs | gnr/node.c:118-135 | the key is the exclusive-or of the characters, without space and case, each shifted by its distance from the end; the bucket is the key modulo 64 |
| Names.EvenKeys | gnr/node.c:118-135 | every key is even, so that half of the buckets stay empty |
| Names.EqualNamesShareBucket | gnr/node.c:118-135 | names that compare equal have the same key and bucket |
| Registry.Table.FindByName | gnr/node.c:357-380 | looking in one bucket finds a node of that name, and of that service up to case if one is given, whenever any node of the registry is such a node, and only such |
| Registry.Table.Online | gnr/node.c:382-439 | an existing match is returned and nothing changes; otherwise exactly one node with these fields is added; names stay unique up to case and spacing exactly when the nodes alike end in as many spaces as the new name |
| Registry.Table.Offline | gnr/node.c:511-520 | exactly this node is removed, found in the bucket of its name |
| Registry.Table.RemoveWhere | gnr/node.c:334-355 | the sweep over all buckets removes exactly the nodes that match |
| Registry.Table.Timeout | gnr/node.c:221-253 | the sweep removes exactly the unreferenced non-local nodes whose finite time to live has passed, and changes no other |
| Registry.Table.FreeAt | gnr/node.c:179-219 | unlinking a node keeps placement, uniqueness and exact statistics |
| Registry.Table.Remetric | gnr/node.c:454-492 | class counters follow the new metric, and a node made local never expires |
| Registry.Table.SetTtl | gnr/node.c:494-509 | local nodes keep -1, others get the value or the default |
| Registry.Table.UseHit | gnr/node.c:442-451 | only the time of last use changes |
| Registry.Table.Reference | gnr/node.c:522-542 | only the reference count changes |
| Registry.Table.StatsReport | gnr/node.c:106-111 | in every reachable state total = node count = local + peered + external, and these are the numbers of nodes with metric 0, with any other, and with 65535 |
| Registry.GoodAdd | gnr/node.c:147-157 | adding an unmatched node keeps every node in its own name's bucket, names unique and counters exact |
| Registry.GoodRemove | gnr/node.c:159-177 | removing a node keeps the same |
| Registry.GoodChange | gnr/node.c:454-492 | moving a node between classes keeps the same |
| Registry.UniqueUpToTrailingSpaces | include/gnr/gnrnode.h:51-52 | in every registry, two nodes of the same folded name and service end in different numbers of spaces |
| Registry.AddKeepsIff | include/gnr/gnrnode.h:51-52 | adding a node that matches none keeps names unique up to case and spacing exactly when none is alike |
| Registry.SpacingNotUnique | include/gnr/gnrnode.h:51-52 | two nodes going online reach a registry that holds "mid" and "mid " for one service |
| Sbuf.Sbuf.NewLen | naf/sbuf.c:89-96 | the loop adds the request rounded up to 256, modulo 65536 |
| Sbuf.Sbuf.Extend | naf/sbuf.c:81-112 | grows to the length computed in 16 bits, refuses beyond 32768, keeps all bytes; when the length wraps around to less than it was, the copy overruns |
| Sbuf.Sbuf.PutRaw | naf/sbuf.c:297-308 | for any request all bytes are appended, or nothing changes, or the buffer is overrun; bytes behind the cursor stay |
| Sbuf.Sbuf.Put16 | naf/sbuf.c:210-220 | appends the big-endian encoding or nothing, or overruns |
| Sbuf.Sbuf.Put32 | naf/sbuf.c:222-232 | appends the big-endian encoding or nothing, or overruns |
| Sbuf.Sbuf.Get16 | naf/sbuf.c:178-186 | reads big-endian; a short buffer yields 0 and the cursor stays |
| Sbuf.Sbuf.Get32 | naf/sbuf.c:188-196 | reads big-endian; a short buffer yields 0 and the cursor stays |
| Sbuf.Sbuf.GetRaw | naf/sbuf.c:234-259 | all the bytes asked for, or none and the cursor stays |
| Wire.OverrunIff | naf/sbuf.c:81-112 | a put of any number of bytes overruns its buffer exactly when the buffer grows and the length asked for, or the request itself, wraps around to an acceptable one |
| Wire.GrowthExact | naf/sbuf.c:89-112 | a growth that succeeds adds exactly the request rounded up to 256, stays within 32768 and never wrapped |
| Wire.RefusedIff | naf/sbuf.c:81-112 | a put is refused exactly when it does not fit a fixed buffer, or the length it asks for, in 16 bits, is above 32768 |
| Wire.PutsAppend | naf/sbuf.c:198-232 | any run of puts appends exactly the accepted chunks and grows by whole blocks within the limit |
| Wire.Take16Be | include/naf/nafbufutils.h:35-49 | what is put is got back, leaving the bytes behind it |
| Wire.Take32Be | include/naf/nafbufutils.h:39-54 | what is put is got back, leaving the bytes behind it |
| Wire.NetworkOrder | include/naf/nafbufutils.h:35-54 | the most significant byte goes first |
| Tlv.RenderTo | naf/tlv.c:118-131 | renders as specified on every buffer and for every list, returns the bytes written, touches no byte behind the cursor |
| Tlv.RenderedSize | naf/tlv.c:133-141 | the size is the length of the encoding |
| Tlv.TlvLayout | naf/tlv.c:118-131 | type, length and value, the first two in network order |
| Tlv.RenderComplete | naf/tlv.c:118-141 | with room up front the cursor advances by exactly the rendered size over exactly the encoding |
| Tlv.RenderFixedIff | naf/tlv.c:118-131 | on a fixed buffer the list is rendered completely exactly when it fits |
| Tlv.RenderIff | naf/tlv.c:118-131 | on any buffer, growing or fixed, and for lists of any size: rendered completely if the lengths complete (no TLV meets a full buffer, no growth is refused or wraps), and fewer bytes are written if they do not |
| Tlv.RenderPrefix | naf/tlv.c:118-131 | on a growing buffer, below 16256 bytes, what is rendered is the encoding of a prefix of the list, of all of it exactly when the lengths complete |
| Tlv.RenderSound | naf/tlv.c:118-131 | values of up to 32512 bytes never overrun the buffer |
| Tlv.FullBufferDrops | naf/tlv.c:122 | TLVs behind ones that fill the buffer exactly are lost |
| Tlv.RenderConcat | naf/tlv.c:118-131 | rendering two lists in turn is rendering their concatenation |
| Tlv.RenderedArrives | naf/tlv.c:73-131 | whenever the lengths complete, the bytes added parse to the list |
| Tlv.ArrivesIff | naf/tlv.c:73-131 | for every buffer and list, of any size: the bytes added parse to the list exactly when its lengths complete or all that is missing is the length field of an empty value at the end |
| Tlv.CompletesArrives | naf/tlv.c:73-131 | a list that does not end in an empty value arrives exactly when its lengths complete |
| Tlv.LostIsShorter | naf/tlv.c:73-131 | what does not arrive is parsed to a list whose encoding is strictly shorter, whichever puts were refused |
| Tlv.PrefixArrives | naf/tlv.c:73-131 | below 16256 bytes the same for every list, and what is parsed otherwise is a shorter prefix |
| Tlv.ParseFrom | naf/tlv.c:73-111 | on every input, with any limit or none, and memory for any number of TLVs, the loop yields the list and the rest of the input specified |
| Tlv.ParseLimited | naf/tlv.c:73-111 | with a limit, memory for that many TLVs is enough for the specified parse |
| Tlv.ParseUnlimited | naf/tlv.c:73-116 | without a limit the loop computes the specified parse on inputs where that ends, and on all others uses up any amount of memory |
| Tlv.ParseTerminatesIff | naf/tlv.c:73-116 | without a limit the loop ends exactly on inputs that never leave a lone byte where a TLV should start |
| Tlv.StrayByte | naf/tlv.c:80-97 | an input on which the loop does not end: a single byte |
| Tlv.ParsedSize | naf/tlv.c:73-111 | a parse that ends makes no more of its input than it is, up to two bytes of a missing length field at the end |
| Tlv.ParseEncoded | naf/tlv.c:73-131 | parsing as many TLVs as were rendered gives them back and stops right behind them, whatever follows |
| Tlv.ParseInvertsEncode | naf/tlv.c:73-131 | parsing a whole rendering without limit ends and gives the list back |
| Tlv.Remove | naf/tlv.c:153-167 | takes the first TLV of the type out |
| Tlv.RemoveSplits | naf/tlv.c:153-167 | what is removed is the first of its type, and the others stay in order |
| Tlv.AddTlv | naf/tlv.c:257-275 | one TLV is added whose value is the rendering cut to 16 bits of length; parsing it recovers the nested list exactly when that is shorter than 65536 bytes |
| Snac.ExtractFrom | timps/oscar/snac.c:103-124 | reads name, warning level and counted TLVs as specified, on every input |
| Snac.RenderUserTo | timps/oscar/snac.c:126-139 | writes the block as specified on every buffer and for every name and list |
| Snac.RenderUserComplete | timps/oscar/snac.c:126-139 | with room up front exactly the block is written |
| Snac.UserLayout | timps/oscar/snac.c:126-139 | the bytes of the block: length of the name, name, warning level, number of TLVs, TLVs |
| Snac.ExtractInvertsRender | timps/oscar/snac.c:103-139 | a rendered block, followed by any bytes, is extracted to the same user info, the cursor right behind it, for every count up to 65535 |
| Snac.NewSnac | timps/oscar/snac.c:40-56 | a fresh growing buffer of 512 bytes that holds a FLAP header for channel 2 and, in network order, family, subtype, flags and id |
| Flap.Reassembly | timps/oscar/flap.c:368-445 | every accepted stream of valid frames, zero-length ones included, is handed over frame by frame, and the forwarded ones are passed on in order |
| Flap.FrameLayout | timps/oscar/flap.c:378-408 | the frames that are accepted, channels 1, 2, 4 and 5 with up to 8192 bytes, and where their fields lie |
| Flap.KilledBy | timps/oscar/flap.c:414-444 | a frame judged an error, or refused by the endpoint, is the last one handed over, and is not forwarded |
| Flap.KilledByHeader | timps/oscar/flap.c:378-399 | six bytes that cannot be a header kill the connection, whatever frames came before |
| Flap.FeedChunks | timps/oscar/flap.c:368-445 | how the stream is cut into chunks does not matter |
| Flap.StreamConserved | timps/oscar/flap.c:368-445 | for every byte stream, frames handed over plus bytes in the buffer are the stream; a killed connection handed over a prefix |
| Flap.ForwardsInOrder | timps/oscar/flap.c:424-430 | in every run the frames recorded as forwarded are exactly those judged FORWARD, in order; FlapConn.Conn.ReceiveAll ties the record to the endpoint's queue |
| Flap.ForwardsMeans | timps/oscar/flap.c:424-430 | the forwarded frames are those at the increasing places where the verdict was FORWARD, there was an endpoint and it took them |
| FlapConn.Conn.HandleRead | timps/oscar/flap.c:368-445 | a bad header kills the connection, a good one waits for its payload, a complete frame is handed over and meets its verdict, as the stream specification says; a forwarded frame takes its buffer along, and the reader has one of its own again |
| FlapConn.Conn.Receive | timps/oscar/flap.c:368-445 | one more byte is one step of the stream specification; the endpoint's queue is unchanged or grows by the frame as read, with the endpoint's next number |
| FlapConn.Conn.ReceiveAll | timps/oscar/flap.c:368-445 | from any state, for every stretch of bytes and every way of judging frames: the connection ends as the stream specification says, and the endpoint of this stretch has queued exactly the forwarded frames, in order, channel and payload unchanged, numbered consecutively modulo 65536 |
| FlapConn.Conn.Interleave | timps/oscar/flap.c:61-95 | the same when frames of our own are queued on the endpoint in between, in any order: the forwarded frames are an ordered subsequence of its queue, each with the number of its place |
| FlapConn.Conn.SendRaw | timps/oscar/flap.c:61-78 | the k-th frame queued carries the magic, sequence number k mod 65536 and its true length; a refused write uses no number |
| FlapConn.Conn.SendSbuf | timps/oscar/flap.c:80-95 | a frame of our own is stamped and queued by the same rule |
| FlapConn.Conn.SendVersion | timps/oscar/flap.c:112-129 | queues the version frame with the next number |
| FlapConn.StampKeepsFrame | timps/oscar/flap.c:61-78 | re-stamping changes nothing of a frame but its sequence number |
| CookieCache.Cache.Add | timps/oscar/ckcache.c:106-134 | adds unless empty or already there; cookies stay pairwise distinct |
| CookieCache.Cache.Rem | timps/oscar/ckcache.c:136-181 | yields the ticket of the cookie and takes it out |
| CookieCache.Cache.Timer | timps/oscar/ckcache.c:183-197 | keeps the entries that are not stale, in order |
| CookieCache.FreshMeans | timps/oscar/ckcache.c:183-197 | a timer pass keeps exactly the entries of at most 60 seconds |
| CookieCache.RemovedIsGone | timps/oscar/ckcache.c:136-151 | a cookie taken out is not found again |
| Handoff.RunSafe | timps/oscar/snac.c:273-346 | in every run cached cookies are distinct, each is the latest issued, issued = cached + redeemed + expired, ticket by ticket, and what waits on a server connection or was sent there is its own cookie |
| Handoff.HandoffSound | timps/oscar/flap.c:215-312 | a cookie frame is sent only on the one connection opened for its cookie, to the address and for the screen name of a reply that carried it; it holds the TLVs of a client's first frame and is sent at most once; no ticket is redeemed more often than issued |
| Handoff.OpenedSound | timps/oscar/flap.c:257-312 | a connection is opened only to the address and screen name of a reply that carried the cookie |
| Handoff.PresentedByHello | timps/oscar/flap.c:215-312 | whatever is sent as a cookie frame came in as a client's first frame |
| Handoff.RedeemOnce | timps/oscar/flap.c:265-278 | a redemption yields the latest ticket for the cookie, and presenting it again does nothing |
| Handoff.CookieHonoured | timps/oscar/flap.c:257-312 | in every run: a cookie that a reply carried, and that was not cached, is good for 60 seconds and one use; presenting it opens a connection for that reply's address and name, with the TLVs presented waiting on it |
| Handoff.PresentedWhenReady | timps/oscar/flap.c:215-238 | what waits on a connection is sent when the connection is complete |
| Handoff.GoneIsSilent | timps/oscar/flap.c:303-308 | what waits on a connection that is gone is not sent, not even on a late completion, and what waits on others stays |
| Handoff.ReplyMeans | timps/oscar/snac.c:287-309 | a reply with cookie, address and name, and without error TLVs, is cached exactly when its cookie is not empty and not cached; any other changes nothing |
| Handoff.HelloMeans | timps/oscar/flap.c:257-312 | a connection is opened exactly when a cached cookie is presented without a screen name and the connect succeeds; exactly that cookie leaves the cache, whether it succeeds or not |
| Handoff.RewrittenKeepsOthers | timps/oscar/snac.c:296-321 | in the rewritten list exactly the first 0x0005 is gone, all other TLVs are kept in order, ours is last; cookie and name are found as before |
| Handoff.ReplyArrivesIff | timps/oscar/snac.c:280-331 | for every reply of a FLAP frame and any address of ours: behind the 16 header bytes the client parses exactly the rewritten list if and only if its lengths complete |
| Handoff.AddressLost | timps/oscar/snac.c:311-331 | whenever the other TLVs fill the 496 bytes behind the headers, they are all the client gets |
| Handoff.UnluckyReply | timps/oscar/snac.c:280-331 | such replies: after the rewriting the client finds no server address at all |
| Handoff.Login.HandleReply | timps/oscar/snac.c:273-346 | one protocol step; the ticket is cached exactly when its cookie is new and not empty; forwarded exactly with TLV 0x0004 or 0x0008; answered exactly when cached, addressed and sent, and then with the bytes of the rendered rewritten list |
| Handoff.Login.HandleHello | timps/oscar/flap.c:257-312 | one protocol step; opens a connection exactly when connected and the first 0x0006 is a cached cookie and there is no 0x0001, for the ticket of that cookie, with the client's TLVs waiting on it; the cookie is spent either way |
| Handoff.Login.HandleReady | timps/oscar/flap.c:215-238 | one protocol step: the TLVs waiting on the connection are taken off it and sent as the cookie frame |
| Handoff.Login.HandleGone | timps/oscar/flap.c:303-308 | one protocol step: the TLVs waiting on a connection are freed with it |
| Handoff.Login.HandleTick | timps/oscar/ckcache.c:183-197 | one protocol step: exactly the cookies of at most 60 seconds stay |
| Handoff.ComposeReply | timps/oscar/snac.c:311-331 | the reply is the SNAC header followed by the other TLVs and our address, rendered |
| Handoff.ComposeCookie | timps/oscar/flap.c:131-149 | the server is presented the client's TLVs behind the version |
| Handoff.CookieArrivesIff | timps/oscar/flap.c:131-149 | the server is presented all TLVs of the client's frame exactly when their lengths complete, and a shorter prefix otherwise |
| IcbmText.ExtractMsgText | timps/oscar/im.c:74-180 | on every value the outcome specified, followed for any number of turns where an empty value makes the loop read uninitialised memory |
| IcbmText.ExtractValue | timps/oscar/im.c:74-180 | on a value that is there the loop ends with the extraction specified; the text of well-formed sections that can be shown reads as their characters, exactly when these hold no literal entity; the second pass over 16-bit text fills exactly the room the first counted |
| IcbmText.Str.Extend | timps/oscar/im.c:49-72 | keeps the text and its terminator and makes room for n more characters |
| IcbmText.Str.Write | timps/oscar/im.c:151-164 | writes exactly the counted characters, within bounds |
| IcbmText.CountChars | timps/oscar/im.c:139-146 | counts the characters the second pass writes, and restores the cursor |
| Icbm.SectionsJoin | timps/oscar/im.c:97-170 | on well-formed sections the text is the concatenation of the section texts, and the unrepresentable ones are counted |
| Icbm.ExtractParts | timps/oscar/im.c:74-180 | extracting features and well-formed sections gives the section texts one after the other |
| IcbmRead.MessageRead | timps/oscar/im.c:74-180 | an independent reader, which takes `&#`, four hexadecimal digits and `;` for a character and every other byte for itself, gets exactly the characters of all sections back from the extracted text if and only if they contain no such sequence themselves |
| IcbmRead.NeverHtml | timps/oscar/im.c:129-164 | for every character outside ASCII: the reference written has its hexadecimal digits, and in HTML, where they count as decimal, it is not that character |
| IcbmRead.ReadWritten | timps/oscar/im.c:151-164 | the same for any sequence of characters and entities |
| Icbm.PartLayout | timps/oscar/im.c:97-117 | where the fields of a section lie |
| Icbm.ExtractIgnoresJunk | timps/oscar/im.c:117-124 | the C string extracted from a value does not depend on uninitialised memory, even where a section is longer than the message |
| Icbm.DeterminedIff | timps/oscar/im.c:74-180 | the extraction always ends, and independently of uninitialised memory, exactly when the message TLV has a value |
| Icbm.EmptyShowsMemory | timps/oscar/im.c:84 | for every character, memory that makes it the text of an empty message TLV |
| Icbm.EmptyNeverEnds | timps/oscar/im.c:97-170 | memory on which the loop does not end for an empty message TLV |
| Icbm.ExtractLength | timps/oscar/im.c:126-164 | the text extracted from a value is at most three and a half times as long as the value |
| Icbm.BlankIff | timps/oscar/im.c:97-111 | no text and nothing unrepresentable comes of exactly the values all of whose sections are shorter than four bytes |
| Icbm.CutIff | timps/oscar/im.c:97-170 | a text with a NUL in it, and nothing unrepresentable, comes of exactly the values all of whose sections can be shown and one of which has a zero byte or character or is longer than what is left |
| Icbm.ExtractBlock | timps/oscar/im.c:182-220 | extracting a block built for a text gives the text |
| Icbm.BlockLayout | timps/oscar/im.c:199-213 | the bytes of the block built for a text |
| Icbm.BlockValueIs | timps/oscar/im.c:182-220 | the value built is the block of the text, or, beyond 65519 bytes, at most 16 bytes without it |
| IcbmText.AddMsgBlock | timps/oscar/im.c:182-220 | for every text one TLV with that value is added |
| IcbmText.RenderChan1To | timps/oscar/im.c:252-288 | renders message, empty flag TLVs 0x0003 and 0x0004, and unknown TLVs as one list |
| Relay.OriginalSent | timps/oscar/im.c:222-266 | a message TLV with a value that cannot be shown is sent again identically, in front, and read as it was |
| Relay.FlagsMean | timps/oscar/im.c:222-250 | 0x0003 is the request for acknowledgement and 0x0004 the automatic response, wherever they are in the list |
| Relay.TextSent | timps/oscar/im.c:182-266 | any other text is sent and extracted up to its first NUL, so all of it exactly when it has none |
| Relay.ConveysIff | timps/oscar/im.c:222-288 | a message of a FLAP frame without an empty message TLV, sent out or in: the receiver's extraction is the sender's, or the message TLV the same, and flags and other TLVs are the same, exactly when no TLV is mistaken for one that is not sent and the text is not cut; up to the end of the C string the first condition is enough |
| Relay.MessageArrivesIff | timps/oscar/im.c:222-288 | the same for the bytes sent, behind headers in a growing buffer of at most 20000 bytes: they are read as the message exactly when moreover the list arrives |
| Relay.SectionsSentIff | timps/oscar/im.c:97-220 | the receiver extracts the section texts, one after the other, exactly when none of them has a NUL in it |
| Relay.NulCut | timps/oscar/im.c:182-220 | a message of two sections of which the second is lost |
| Relay.BlankLost | timps/oscar/im.c:222-288 | a blank message TLV with a second one behind it: only the second is sent, and read as the message |
| Relay.AckGetsThrough | timps/oscar/im.c:633-637 | a second request for acknowledgement is sent to the client |
| Relay.EmptyRelayed | timps/oscar/im.c:222-266 | an empty message TLV can be sent on as a message whose text was in memory |
| Checksum.HdrCsum | naf/ipv4/ipv4.c:331-353 | the loop computes the folded, swapped, complemented word sum, without overflow of 32 bits |
| Checksum.ByteOrderIndependent | naf/ipv4/ipv4.c:326-353 | summing in either byte order gives the same result, section 2(B) of RFC 1071 |
| Checksum.SumsToOnes | naf/ipv4/ipv4.c:326-330 | with the reference checksum in its place the one's-complement sum of the buffer is all ones, section 1 of RFC 1071 |
| Checksum.WordsMean | naf/ipv4/ipv4.c:331-353 | words are read in the order of the host, and an odd last byte is padded with zero |
| Checksum.ChecksumCorrectIff | naf/ipv4/ipv4.c:326-353 | for every buffer, odd lengths included, and either host order, the code computes the checksum of section 1 of RFC 1071 exactly when one fold is enough |
| Checksum.ChecksumOffByOne | naf/ipv4/ipv4.c:349 | a packet header, for either host order, for which it does not |
| Ipv4.Output | naf/ipv4/ipv4.c:571-594 | builds the header of section 3.1 of RFC 791, checksum included, and the payload, unless the total length wraps around 16 bits, when it overruns its buffer |
| Ipv4.HeaderLayout | naf/ipv4/ipv4.c:571-594 | where each field of the header lies, in network order |
| Ipv4.WrappedOverruns | naf/ipv4/ipv4.c:571-590 | a payload of 65516 bytes or more overruns, since the growth it asks for wraps around as well |
| Ipv4.Input | naf/ipv4/ipv4.c:461-521 | accepts and decodes as specified, options flags included, and zeroes the checksum field only |
| Ipv4.AcceptedFields | naf/ipv4/ipv4.c:461-521 | an accepted packet is of version 4 with a TTL and lengths inside the buffer, and its fields are read from where section 3.1 of RFC 791 puts them |
| Ipv4.ParseOptions | naf/ipv4/ipv4.c:359-415 | the loop flags the options specified, on every input |
| Ipv4.OptionsRead | naf/ipv4/ipv4.c:359-415 | options that carry their length, with padding between them, are flagged up to the end of options, exactly those |
| Ipv4.OptionsTurn | naf/ipv4/ipv4.c:359-415 | which types are flagged and how far each option reaches, for every type |
| Ipv4.InputAcceptsOutput | naf/ipv4/ipv4.c:461-604 | what output builds with non-zero TTL is accepted with all fields and payload unchanged |
| Ipv4.InputAcceptsCorrectIff | naf/ipv4/ipv4.c:473-498 | any packet with valid version, lengths and TTL, options included, that carries a correct checksum is accepted exactly when one fold is enough for its header |
| Ipv4.CorrectRefused | naf/ipv4/ipv4.c:494-498 | a packet with a correct checksum that is refused, for either host order |
| Ipv4.PayloadInsideIff | naf/ipv4/ipv4.c:475-504 | the payload of an accepted packet lies inside the buffer exactly when its total length covers the header |
| Ipv4.ShortTotalAccepted | naf/ipv4/ipv4.c:475-504 | an accepted packet of 20 bytes with a payload of 65516 |
| Pool.Pool.BlkAlloc | naf/memory.c:464-495 | marks and returns the lowest free block, inside the region if its length does not wrap; fails exactly when all are taken |
| Pool.Pool.BlkFree | naf/memory.c:497-523 | for every address: frees the block whose number it gives if that is taken, goes behind the map exactly when the number is the block count, and aborts otherwise |
| Pool.Pool.AllocThenFree | naf/memory.c:464-523 | freeing what was just allocated restores the pool exactly when the block's offset does not wrap around 32 bits, so always in a region of at most 4 GB |
| Pool.MarkTaken | naf/memory.c:484 | setting the bit adds exactly this block |
| Pool.MarkFree | naf/memory.c:511-520 | flipping the bit removes exactly this block, most significant bit first |
| Pool.InsideIff | naf/memory.c:404-485 | all blocks lie inside the mapped region exactly when its length does not wrap around 32 bits |
| Pool.DisjointIff | naf/memory.c:485 | no two blocks share a byte exactly when no offset wraps around 32 bits |
| Pool.WrappedPool | naf/memory.c:379-405 | accepted parameters for which both fail: 4104 blocks of 1 MB |
| Pool.BlockNumber | naf/memory.c:485-507 | the number computed from an allocated address is its block's, and a lower one exactly when the offset wrapped around 32 bits |
| Xml.EncodedLen | libmx/src/lmx.c:423-443 | the length pass counts the escaped text |
| Xml.CountDecoded | libmx/src/lmx.c:449-470 | the length pass counts as specified for every text and bound |
| Xml.DecodeInto | libmx/src/lmx.c:472-501 | for every text and bound writes the decoded text, reading on where plain characters are not counted down, cut to the buffer, and a terminator within it |
| Xml.StoredLength | libmx/src/lmx.c:449-470 | the length computed is that of what is stored, a partial escape at the bound counting as one character |
| Xml.StoredPrefix | libmx/src/lmx.c:472-501 | the decoder writes exactly that much first, although it may read past the bound |
| Xml.StoredIff | libmx/src/lmx.c:449-553 | what is stored is the decoded text exactly when the text does not end in part of an escape, or in a lone ampersand that begins no other escape in memory |
| Xml.TailMeans | libmx/src/lmx.c:449-470 | the partial escape a text ends in is its one suffix that is part of an escape |
| Xml.CutShort | libmx/src/lmx.c:449-553 | a text that is stored cut short |
| Xml.DecodeInvertsEncode | libmx/src/lmx.c:449-534 | decoding an escaped text gives it back, and no escaped text ends in part of an escape |
| Xml.AddEncoded | libmx/src/lmx.c:536-553 | stores what is specified for every text and bound; for an escaped text, whatever memory holds behind it, the text itself |
| XmlTree.RenderedLen | libmx/src/lmx.c:588-619 | the sizing pass equals the length of the tree's text |
| XmlTree.Render | libmx/src/lmx.c:621-664 | the render pass writes exactly the tree's text and a terminator, and leaves what precedes it |
| XmlTree.PutStr | libmx/src/lmx.c:503-534 | writes exactly the escaped text and a terminator |
| XmlTree.GetString | libmx/src/lmx.c:666-681 | the buffer sized by the first pass holds exactly the text and its terminator, and the text reads as the tree |
| XmlTree.ReadsBack | libmx/src/lmx.c:571-681 | an independent reader of tags, attributes, escaped characters and closing tags gives the rendered tree back, character data joined, for names free of markup and attribute values free of quotes |
| AgeCache.AgeBound | naf/cache.c:361-391 | over the events of every run: after a timer pass a remaining pair is at most 2 * timeout - 2 seconds past its last add or hit, and a dropped one at least timeout seconds |
| AgeCache.RunMirrors | naf/cache.c:268-391 | in every run the list holds exactly the pairs alive by the history of adds, hits, removals and timer passes, newest first, each with the time of its last add or hit |
| AgeCache.HitKeeps | naf/cache.c:289-316 | for every timeout, a pair that was hit just before it would have expired outlives the timer pass |
| AgeCache.AgeBoundTight | naf/cache.c:361-391 | for every timeout a run that reaches the bound |
| AgeCache.CacheList.FindPair | naf/cache.c:289-316 | the first match, if there is one, and exactly its time becomes the current one; otherwise nothing changes |
| AgeCache.CacheList.RemPairs | naf/cache.c:318-343 | removes exactly the matching pairs |
| AgeCache.CacheList.TimerPass | naf/cache.c:372-388 | within the timeout of the last pass nothing changes; otherwise exactly the pairs younger than the timeout remain, and the pass is noted |
| AgeCache.CacheList.Sweep | naf/cache.c:372-388 | the traversal keeps exactly the young pairs, in order |
| AgeCache.CacheList.AddPair | naf/cache.c:268-287 | the pair is put in front with the current time |

## Left out

- Sockets, libnbio, DNS, processes, signals, modules, configuration, logging, console, RPC listings: I/O and foreign code.
- Failure of memory allocation, except in `Tlv.ParseFrom`, and the guards against NULL arguments.
- Callbacks run inside traversals (connkill, freetag, node events): taken not to re-enter the structure being traversed. Of takeconn only the type it gives is modelled.
- What the program does once it has written past a buffer: the models only say that it has.
- Snac.NewSnac: puts the header fields as two blocks; with room for all of them this is the same.
- IcbmText.ExtractMsgText: the buffer of an empty message TLV is modelled on values, since its cursor may pass its end.
- naf_sbuf_setpos past the end of a buffer, and naf_sbuf_prepend.
- Pool.Pool.constructor: takes parameters the source accepts; that it refuses others is not modelled.
- XmlTree.Render: requires the room the sizing pass provides; C strings are NUL-free.
- Xml.CountDecoded: on a partial escape at the end the source also reads the character behind the terminator; the count does not depend on it.
- Relay.MessageArrivesIff: the headers in front of the TLVs (cookie, channel, name or user info) are taken as bytes already in the buffer.
- Ipv4.Output: route selection and defaults for unset fields.
- The extended SNAC header, SNAC dispatch, the other SNAC handlers, the FLAP version check, and login TLVs that wait on a server connection.
- The server type of a cookie: accepted by the source but never stored.
- Cache teardown, toscar_sncmp, the ICMP checksum, HTTP and SOAP, tag lists.
- Per-module memory statistics, message-handler ordering and staged routing: they would only add easy members.
