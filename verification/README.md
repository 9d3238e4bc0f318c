# Verified models of the UNIX Network Programming sources

The programs of `origin-src/unpv13e` are mostly thin layers over the socket calls, but a dozen of them carry
logic of their own: an address codec, a reliable request/reply protocol, servers built from processes, threads,
signals and `select`, a nonblocking relay, a list that grows while it is walked, and a checksum. This project
models those pieces and proves what they are for. The kernel, the network, the clock and the other processes
appear only as inputs: what a `read` gives, what `Select` reports, which step is taken next. A result about
"every run" is a result about every such input.

| file | what it models |
|---|---|
| `Text.dfy` | bytes, C strings, cutting a string at a separator |
| `Ipv4Text.dfy`, `Pton4.dfy`, `Aton.dfy` | dotted-decimal text, `inet_pton4`, `inet_aton` |
| `Ipv6Text.dfy`, `Ipv6Words.dfy`, `Ipv6RoundTrip.dfy` | IPv6 text, words and bytes, the round trip |
| `Ntop.dfy`, `Pton6.dfy` | `inet_ntop4`/`inet_ntop6`, `inet_pton6` |
| `Ipv6Grammar.dfy`, `Ipv6Canonical.dfy` | IPv6 text by the RFCs: the grammar and the canonical spelling |
| `Rtt.dfy`, `ReliableUdp.dfy` | the RTT estimator, `dg_send_recv` and `dg_echo` over an unreliable network |
| `Prefork.dfy` | the descriptor-passing server: parent, children and the pipes between them |
| `Relay.dfy` | the nonblocking relay `str_cli` |
| `SigioRing.dfy`, `ThreadPool.dfy` | the ring between a signal handler and a loop, and between an acceptor and N threads |
| `AddrList.dfy`, `Gai.dfy` | the addrinfo list as values, and as linked nodes changed in place |
| `Checksum.dfy`, `UdpWrite.dfy` | the Internet checksum, and a UDP datagram built around it |
| `WebScheduler.dfy`, `SelectServer.dfy`, `Readline.dfy` | the connection scheduler, the `select` echo server, buffered `readline` |

Code that works by changing variables is a method or a class whose methods change fields and arrays; each is
proved to do what a function says, and the properties are lemmas about that function. Protocols between several
processes are state machines whose steps any scheduler may choose.

Main results:

- Parsing what `inet_ntop6` prints gives back the same sixteen bytes, for every address, so printing is
  one-to-one, and the text is exactly the canonical one of section 4 of RFC 5952, with a dotted quad for
  IPv4-compatible and IPv4-mapped addresses; it has at most 39 characters.
- `inet_pton6` accepts every text of section 2.2 of RFC 4291 with the RFC's meaning, and goes beyond it in exactly
  three ways (`Ipv6Grammar.ExactlyTheRfc`): hex fields of more than four characters, a single colon at the end, and
  "::" among eight groups. (The numbers of a dotted quad may have leading zeros, on which that section is silent.)
- In every run of client, echo server and a network that loses, duplicates and reorders, with fewer than 2^32
  calls, `dg_send_recv` returns the echo of its own request, and times it from the transmission whose echo it is.
- In every run of the preforked server the parent's table agrees with what the children really do, "no
  available children" is never reached, and once nobody else connects every connection is taken and finished after a
  bounded number of steps that change anything, whoever takes them.
- The relay loses, invents and reorders nothing in either direction and sends one FIN, at the right moment; it
  never stalls itself, and it is settled which round ends a run, and how.
- No interleaving of the SIGIO handler with the main loop loses, repeats or reorders a datagram. No interleaving
  of the acceptor and its threads does so with a descriptor, and no wakeup is lost.
- `ga_port` turns k addresses and m socket types into their cross product, each entry with a socket address of its own.
- `in_cksum` is the checksum of RFC 1071 exactly while its 32-bit accumulator does not wrap, which is certain up
  to 131074 bytes and no further; the datagram `udp_write` sends verifies under RFC 768.
- The connection scheduler keeps its counters and sets exact and ends only when every file has met its end of file. Buffered
  `readline` stores the same lines as the one-byte form however reads are cut.

Where code and comment disagree the model follows the code. The comment above `inet_pton6` says that "::" in a
full address is silently ignored; the shift in fact clears every byte behind it, and
`Ipv6Grammar.GapInFullAddress` says, for any accepted text, exactly when that is harmless. The size test of
`inet_ntop4` leaves the NUL out of account (`Ntop.InetNtop4`). After a failed `getsockopt` the scheduler
prints a message and goes on as if the connection were there; so does the model. The SIGIO handler gives up as
soon as the queue counts eight, even if nothing more waits, so at most seven datagrams can be queued
(`SigioRing.HandlerExact`).

That the thread pool never has work while every thread sleeps is false as it stands: between storing a descriptor
and signalling, the acceptor holds the mutex with the queue not empty. `ThreadPool.WorkCanMeetSleepersOnly` runs into
that moment, and `ThreadPool.EveryInterleaving` says that it is the only one: with all threads asleep there is work
exactly between the store and the signal.

## Model

| member | source | states |
|---|---|---|
| `Pton4.InetPton4` | origin-src/unpv13e/libfree/inet_pton.c:86-125 | accepts exactly four non-empty decimal groups of value at most 255, any leading zeros; stores their values, and on failure touches nothing |
| `Ipv4Text.PrintParse4` | origin-src/unpv13e/libfree/inet_ntop.c:85-101 | every printed IPv4 address is a dotted quad meaning the same four bytes |
| `Ipv4Text.QuadSpelling` | origin-src/unpv13e/libfree/inet_pton.c:86-125 | a string is a dotted quad of an address exactly when it is the address as printed but for zeros in front of its numbers |
| `Ntop.InetNtop4` | origin-src/unpv13e/libfree/inet_ntop.c:85-101 | gives the dotted-decimal text unless it is longer than the buffer, so always with the documented size; success leaves room for the NUL exactly when text and buffer differ in length |
| `Aton.InetAton` | origin-src/unpv13e/libfree/inet_aton.c:22-75 | accepts exactly at most four digit groups, possibly empty, whose wrapped value is at most 255; missing groups are zero |
| `Aton.AtonAgreesWithPton4` | origin-src/unpv13e/libfree/inet_aton.c:22-75 | on every string inet_pton4 accepts inet_aton succeeds with the same address |
| `Aton.AtonBeyondPton4` | origin-src/unpv13e/libfree/inet_aton.c:28-62 | of what inet_aton accepts, inet_pton4 accepts exactly four non-empty groups whose numbers did not wrap |
| `Aton.AtonReduces` | origin-src/unpv13e/libfree/inet_aton.c:22-75 | a string is accepted exactly when it has at most four pieces and inet_pton4 takes the same numbers, wrapped and filled up with zeros; the address is the same |
| `Ntop.LoadWords` | origin-src/unpv13e/libfree/inet_ntop.c:132-134 | the word array holds the address, high byte first |
| `Ntop.LongestRun` | origin-src/unpv13e/libfree/inet_ntop.c:135-156 | finds the leftmost of the longest runs of zero words, or none when that is shorter than two |
| `Ipv6Text.LeftmostLongestUnique` | origin-src/unpv13e/libfree/inet_ntop.c:135-156 | leftmost longest determines the run |
| `Ntop.FormatWords` | origin-src/unpv13e/libfree/inet_ntop.c:161-187 | writes the groups around "::" with the quad in the two embedded IPv4 forms |
| `Ntop.InetNtop6` | origin-src/unpv13e/libfree/inet_ntop.c:109-198 | gives the printed form, or fails exactly when text and NUL do not fit; 40 bytes always do |
| `Ipv6Canonical.PrintsCanonically` | origin-src/unpv13e/libfree/inet_ntop.c:109-198 | what is printed is exactly the canonical text: lower case, no zeros in front, "::" for the leftmost of the longest runs of two zero words or more, a quad exactly for IPv4-compatible and IPv4-mapped addresses |
| `Ipv6Canonical.ShortenedExactly` | origin-src/unpv13e/libfree/inet_ntop.c:161-187 | the text with "::" over given words, and when it ends in a quad |
| `Ipv6Canonical.CaseIgnored` | origin-src/unpv13e/libfree/inet_pton.c:145-146 | upper and lower case digits parse alike, in any text |
| `Ipv6Canonical.HexSpelling` | origin-src/unpv13e/libfree/inet_pton.c:165-174 | hex digits have a value exactly when they are, case apart, what %x prints for it behind any number of zeros |
| `Ipv6Canonical.GroupSpelling` | origin-src/unpv13e/libfree/inet_pton.c:165-174 | a group is accepted exactly when it spells some 16-bit word |
| `Ipv6RoundTrip.RoundTrip` | origin-src/unpv13e/libfree/inet_pton.c:140-224 | parsing any printed address succeeds and gives back the same sixteen bytes, through all forms |
| `Ipv6RoundTrip.PrintingIsOneToOne` | origin-src/unpv13e/libfree/inet_ntop.c:109-198 | two addresses are equal exactly when their texts are |
| `Ipv6RoundTrip.PrintedLength` | origin-src/unpv13e/libfree/inet_ntop.c:161-187 | a printed address has between 2 and 39 characters |
| `Ipv6RoundTrip.PlainRoundTrip` | origin-src/unpv13e/libfree/inet_ntop.c:162-183 | the round trip without "::" |
| `Ipv6RoundTrip.GapRoundTrip` | origin-src/unpv13e/libfree/inet_ntop.c:164-186 | the round trip with "::" over any zero run, leading, inner or trailing |
| `Ipv6RoundTrip.QuadRoundTrip` | origin-src/unpv13e/libfree/inet_ntop.c:174-180 | the round trip of both embedded IPv4 forms |
| `Ipv6Grammar.ExactlyTheRfc` | origin-src/unpv13e/libfree/inet_pton.c:140-224 | a text denotes an address by the RFC's grammar exactly when it is accepted with that address and has no field of over four characters, no single colon at its end and no "::" among eight groups |
| `Ipv6Grammar.RfcIsAccepted` | origin-src/unpv13e/libfree/inet_pton.c:140-224 | every text of the RFC is accepted with the RFC's meaning |
| `Ipv6Grammar.AcceptedIsLoose` | origin-src/unpv13e/libfree/inet_pton.c:164-220 | an accepted text has a colon too many or consists of hex groups, perhaps a last quad, and at most one "::" |
| `Ipv6Grammar.GapParse` | origin-src/unpv13e/libfree/inet_pton.c:205-220 | what any text with one "::" and at most sixteen bytes of groups parses to |
| `Ipv6Grammar.LeadingZeroIgnored` | origin-src/unpv13e/libfree/inet_pton.c:165-174 | a further leading zero changes no hex group, however long |
| `Ipv6Grammar.TrailingColonIgnored` | origin-src/unpv13e/libfree/inet_pton.c:175-190 | a colon after a last hex group changes nothing, for any text |
| `Ipv6Grammar.GapInFullAddress` | origin-src/unpv13e/libfree/inet_pton.c:205-218 | in any text whose groups make sixteen bytes "::" clears what follows it, harmless exactly when that is zero |
| `Ipv6Grammar.GapAmongWords` | origin-src/unpv13e/libfree/inet_pton.c:205-218 | the same for eight words as printed |
| `Ipv6Grammar.GapBeforeQuad` | origin-src/unpv13e/libfree/inet_pton.c:205-218 | the same for six words and a dotted quad, which is cleared too |
| `Text.SplitExactly` | origin-src/unpv13e/libfree/inet_pton.c:175-190 | the pieces a text is cut into at its colons or dots are the only ones without that separator that it joins to the text |
| `Pton6.InetPton6` | origin-src/unpv13e/libfree/inet_pton.c:140-224 | accepts exactly the texts with a meaning and stores that meaning; otherwise leaves the destination alone |
| `Pton6.ShiftGap` | origin-src/unpv13e/libfree/inet_pton.c:205-218 | the overlapping shift moves the bytes behind "::" to the end and leaves zeros |
| `Pton6.HexStep` | origin-src/unpv13e/libfree/inet_pton.c:165-174 | a hex digit extends the group, or its value passes 0xffff and no continuation can be accepted |
| `Pton6.ColonStep` | origin-src/unpv13e/libfree/inet_pton.c:175-190 | a colon closes a group or opens the one gap; a second gap or a ninth group dooms the text |
| `Pton6.DotStep` | origin-src/unpv13e/libfree/inet_pton.c:191-197 | at a dot the rest from the group's start must be one dotted quad with room for it |
| `Pton6.EndStep` | origin-src/unpv13e/libfree/inet_pton.c:199-220 | at the end an open hex group is stored if it fits |
| `Rtt.RttInfo.RttInit` | origin-src/unpv13e/lib/rtt.c:22-35 | the estimators start so that the first timeout is three seconds |
| `Rtt.RttInfo.RttNewpack` | origin-src/unpv13e/lib/rtt.c:56-60 | only the retransmission count is reset |
| `Rtt.RttInfo.RttStart` | origin-src/unpv13e/lib/rtt.c:62-67 | the alarm is the timeout rounded to the nearest second |
| `Rtt.RttInfo.RttStop` | origin-src/unpv13e/lib/rtt.c:79-102 | one Jacobson step, gains 1/8 and 1/4 |
| `Rtt.RttInfo.RttTimeout` | origin-src/unpv13e/lib/rtt.c:110-119 | the timeout doubles; -1 exactly beyond three retransmissions |
| `Rtt.Minmax` | origin-src/unpv13e/lib/rtt.c:12-20 | the timeout is kept between two seconds and a minute |
| `Rtt.EstimatesBounded` | origin-src/unpv13e/lib/rtt.c:22-102 | measurements of at most m seconds keep srtt in [0, m] and rttvar at most the larger of 0.75 and m |
| `Rtt.TimeoutRule` | origin-src/unpv13e/lib/rtt.c:10-20 | after any measurements the timeout is srtt and four times rttvar, but at least two seconds and at most a minute (section 2 of RFC 6298) |
| `Rtt.OneMeasurement` | origin-src/unpv13e/lib/rtt.c:79-102 | from any estimates srtt goes an eighth of the way to the measurement and rttvar a quarter of the way to the distance |
| `Rtt.EqualMeasurements` | origin-src/unpv13e/lib/rtt.c:79-102 | closed forms of srtt, rttvar and the timeout after n equal measurements |
| `Rtt.ElapsedIsClockTime` | origin-src/unpv13e/lib/rtt.c:44-54 | the 32-bit difference of two stamps is the clock's difference modulo 2^32, hence exact below that |
| `ReliableUdp.HeaderFields` | origin-src/unpv13e/rtt/dg_send_recv.c:10-13 | the header's two words come back from its bytes |
| `ReliableUdp.DgClient.DgSendRecv` | origin-src/unpv13e/rtt/dg_send_recv.c:18-93 | one call over any alarms and arrivals does what the client's steps say, and sends just what they send |
| `ReliableUdp.DgClient.Prepare` | origin-src/unpv13e/rtt/dg_send_recv.c:26-54 | estimators initialised when needed, next sequence number, count reset |
| `ReliableUdp.DgClient.SendAgain` | origin-src/unpv13e/rtt/dg_send_recv.c:56-61 | a fresh stamp before the same request |
| `ReliableUdp.DgClient.AlarmWent` | origin-src/unpv13e/rtt/dg_send_recv.c:68-79 | retransmits or gives up, and then starts afresh in the next call |
| `ReliableUdp.DgClient.Received` | origin-src/unpv13e/rtt/dg_send_recv.c:81-92 | skips short and foreign datagrams; the matching one ends the call and is measured |
| `ReliableUdp.DgEcho` | origin-src/unpv13e/rtt/dg_echo.c:4-16 | each datagram goes back to its sender, cut to the buffer |
| `ReliableUdp.Run` | origin-src/unpv13e/rtt/dg_send_recv.c:18-93 | every run keeps the invariant of client, log and network |
| `ReliableUdp.CallKeepsInv` | origin-src/unpv13e/rtt/dg_send_recv.c:26-61 | a new call keeps it |
| `ReliableUdp.ExpireKeepsInv` | origin-src/unpv13e/rtt/dg_send_recv.c:68-79 | a timeout keeps it |
| `ReliableUdp.ServeKeepsInv` | origin-src/unpv13e/rtt/dg_echo.c:10-15 | an echo keeps it, of any request copy at any time |
| `ReliableUdp.DeliverKeepsInv` | origin-src/unpv13e/rtt/dg_send_recv.c:81-92 | a delivery keeps it, of any reply copy at any time |
| `ReliableUdp.AcceptedExactly` | origin-src/unpv13e/rtt/dg_send_recv.c:81-92 | a reply ends the call exactly when its transmission's call number agrees modulo 2^32, with the data and time of that transmission |
| `ReliableUdp.DeliveryMeans` | origin-src/unpv13e/rtt/dg_send_recv.c:81-92 | below 2^32 calls: exactly the replies to this very call, its own request, and the clock time since that transmission |
| `ReliableUdp.EveryReturnIsOwnEcho` | origin-src/unpv13e/rtt/dg_send_recv.c:32-92 | the same in every run from the start; the data is the start of the request, cut only by the server's buffer and the caller's room |
| `ReliableUdp.EstimatorsCarryOver` | origin-src/unpv13e/rtt/dg_send_recv.c:26-30 | in every run the estimators hold exactly the measurements of the calls since one last gave up, and each call begins with their timeout |
| `ReliableUdp.TimerDiscipline` | origin-src/unpv13e/rtt/dg_send_recv.c:54-79 | in every run calls start with a timeout in [2, 60], send at most four times with doubling timeouts and give up exactly at the fourth timeout |
| `Prefork.Parent.Assign` | origin-src/unpv13e/server/serv05.c:54-62 | the first available child is marked busy and counted |
| `Prefork.Parent.Scan` | origin-src/unpv13e/server/serv05.c:70-80 | every reported pipe's child becomes available although the loop stops at nsel zero |
| `Prefork.Parent.Pass` | origin-src/unpv13e/server/serv05.c:49-80 | what one pass makes of the table; some child is always found |
| `Prefork.PassInAnyRun` | origin-src/unpv13e/server/serv05.c:49-80 | however children and connections come in between, the parent's steps end a pass with that very table |
| `Prefork.StepsRunOut` | origin-src/unpv13e/server/serv05.c:43-81 | without new connections only a bounded number of steps can change anything |
| `Prefork.RestMeansServed` | origin-src/unpv13e/server/child05.c:40-50 | nothing can move exactly when no connection waits or is in hand; then all have been taken and finished and every child is available |
| `Prefork.ListenKeepsInv` | origin-src/unpv13e/server/serv05.c:50-68 | the connection goes to a child with nothing in hand, and there is one |
| `Prefork.ScanKeepsInv` | origin-src/unpv13e/server/serv05.c:71-80 | reading a reported pipe finds a byte and frees a child that is idle |
| `Prefork.ChildKeepsInv` | origin-src/unpv13e/server/child05.c:40-50 | receiving, serving and reporting move the one thing a busy child has in hand |
| `Prefork.StepKeepsInv` | origin-src/unpv13e/server/serv05.c:43-81 | every step of anyone keeps the invariant, and neither error exit is taken |
| `Prefork.EveryRun` | origin-src/unpv13e/server/serv05.c:43-81 | in every run: navail counts available children, a status is exactly what its child has in hand, connections are taken in order, each by one child |
| `Prefork.ScanLeavesNothing` | origin-src/unpv13e/server/serv05.c:77-78 | the early exit happens only when nothing reported remains |
| `Prefork.StartInv` | origin-src/unpv13e/server/child05.c:14-20 | the invariant holds after the children are made |
| `Relay.StrCli.constructor` | origin-src/unpv13e/nonblock/strclinonb.c:22-24 | both buffers start empty |
| `Relay.StrCli.StdinReadable` | origin-src/unpv13e/nonblock/strclinonb.c:42-62 | reads into the buffer, or notes the end and sends the FIN if nothing is pending |
| `Relay.StrCli.SockReadable` | origin-src/unpv13e/nonblock/strclinonb.c:64-86 | reads into the buffer, or returns after the end of input and exits before it |
| `Relay.StrCli.StdoutWritable` | origin-src/unpv13e/nonblock/strclinonb.c:89-103 | writes what is accepted and starts over when empty |
| `Relay.StrCli.SockWritable` | origin-src/unpv13e/nonblock/strclinonb.c:105-122 | writes what is accepted; once empty after the end of input the FIN follows |
| `Relay.StrCli.ReadHalf` | origin-src/unpv13e/nonblock/strclinonb.c:28-86 | the watched sets and the two reading steps |
| `Relay.StrCli.WriteHalf` | origin-src/unpv13e/nonblock/strclinonb.c:89-122 | the two writing steps |
| `Relay.StrCli.Loop` | origin-src/unpv13e/nonblock/strclinonb.c:27-123 | the whole loop over any sequence of kernel answers |
| `Relay.TurnGood` | origin-src/unpv13e/nonblock/strclinonb.c:28-122 | one turn keeps conservation and FIN discipline and only adds to what has crossed |
| `Relay.RunGood` | origin-src/unpv13e/nonblock/strclinonb.c:22-123 | so does every run; it returns only after the end of standard input |
| `Relay.EveryRun` | origin-src/unpv13e/nonblock/strclinonb.c:22-123 | from the start: bytes read are bytes written and the pending part, both ways; the FIN once, after everything, and nothing after it |
| `Relay.TurnExactly` | origin-src/unpv13e/nonblock/strclinonb.c:24-123 | what one turn reads and writes, from what is watched, reported and answered, and whether it is the last |
| `Relay.HowRunsEnd` | origin-src/unpv13e/nonblock/strclinonb.c:44-88 | a run exits exactly at a failed call or the socket's end of file too soon, and returns exactly at the socket's end of file behind that of standard input; a call that would block ends nothing |
| `Relay.NeverStalls` | origin-src/unpv13e/nonblock/strclinonb.c:28-39 | something is watched towards each side that is still open |
| `Relay.GenerousTurnDrains` | origin-src/unpv13e/nonblock/strclinonb.c:89-122 | when writes take everything a turn empties both buffers, and after the end of input the FIN is out |
| `SigioRing.DgEcho.SigIo` | origin-src/unpv13e/sigio/dgecho01.c:78-108 | the handler's loop does what the handler function says |
| `SigioRing.DgEcho.SendHead` | origin-src/unpv13e/sigio/dgecho01.c:64-65 | sends the datagram that has waited longest |
| `SigioRing.DgEcho.BumpGet` | origin-src/unpv13e/sigio/dgecho01.c:67 | the increment as a step of its own |
| `SigioRing.DgEcho.WrapGet` | origin-src/unpv13e/sigio/dgecho01.c:67-68 | the test after it |
| `SigioRing.DgEcho.Dequeue` | origin-src/unpv13e/sigio/dgecho01.c:71-72 | the count goes down while SIGIO is blocked |
| `SigioRing.NeverOverwrites` | origin-src/unpv13e/sigio/dgecho01.c:85-107 | the slot the handler fills holds nothing still to be sent, wherever the main loop stands |
| `SigioRing.ReceiveAppends` | origin-src/unpv13e/sigio/dgecho01.c:89-104 | a received datagram goes last in the line and nothing else moves |
| `SigioRing.HandlerExact` | origin-src/unpv13e/sigio/dgecho01.c:85-108 | the overflow exit is taken exactly when the count would reach QSIZE; otherwise all is queued in order |
| `SigioRing.MainStepKeepsInv` | origin-src/unpv13e/sigio/dgecho01.c:57-73 | each small step of the main loop keeps the ring consistent |
| `SigioRing.EveryInterleaving` | origin-src/unpv13e/sigio/dgecho01.c:56-108 | for every interleaving: consistent ring, and echoes are the arrivals, each once, in order |
| `SigioRing.QuietMeansEchoed` | origin-src/unpv13e/sigio/dgecho01.c:57-73 | with no more signals everything that arrived is echoed |
| `ThreadPool.ClientQueue.Store` | origin-src/unpv13e/server/serv08.c:39-46 | appends to the queue; full exactly at 32 |
| `ThreadPool.ClientQueue.Fetch` | origin-src/unpv13e/server/pthread08.c:24-26 | takes the oldest descriptor |
| `ThreadPool.PutAppends` | origin-src/unpv13e/server/serv08.c:40-42 | storing appends, wrapped or not |
| `ThreadPool.TakeRemoves` | origin-src/unpv13e/server/pthread08.c:24-26 | taking removes the front, wrapped or not |
| `ThreadPool.AcceptorKeepsInv` | origin-src/unpv13e/server/serv08.c:35-47 | each small step of the acceptor keeps the invariant, whichever sleepers a signal wakes |
| `ThreadPool.WorkerKeepsInv` | origin-src/unpv13e/server/pthread08.c:20-32 | each small step of a thread keeps it |
| `ThreadPool.EveryInterleaving` | origin-src/unpv13e/server/serv08.c:35-47 | accept order, one thread per descriptor, at most 31 queued, mutual exclusion, right counts, and with all threads asleep work waits exactly between the store and the signal |
| `ThreadPool.WorkCanMeetSleepersOnly` | origin-src/unpv13e/server/serv08.c:35-47 | that moment is reached in a run of five steps |
| `ThreadPool.ExitExact` | origin-src/unpv13e/server/serv08.c:43-44 | the exit is taken exactly with 32 descriptors queued |
| `ThreadPool.WorkMeansProgress` | origin-src/unpv13e/server/pthread08.c:20-32 | while something is queued some thread can move without a new connection |
| `ThreadPool.EveryDescriptorServed` | origin-src/unpv13e/server/pthread08.c:20-32 | what accept returned is stored or about to be, in order; what a thread took it has served or is about to, each once and in order |
| `Gai.GaAistruct` | origin-src/unpv13e/libgai/ga_aistruct.c:9-88 | appends one entry through the tail pointer, to be cloned exactly when no type was asked for; a Unix domain path that does not fit is an error with the entry already in the list |
| `Gai.GaClone` | origin-src/unpv13e/libgai/ga_clone.c:8-30 | a copy with its own socket address right behind the original, the flag off |
| `Gai.Visit` | origin-src/unpv13e/libgai/ga_port.c:37-63 | one round of the walk, clones included, and where it goes on |
| `Gai.GaPort` | origin-src/unpv13e/libgai/ga_port.c:30-65 | the walk ends with the list the value function says, unshared socket addresses, and its count |
| `Gai.GaPorts` | origin-src/unpv13e/libgai/ga_port.c:30-65 | any sequence of calls, in place: the list the value functions say, and for untyped entries and distinct types the cross product |
| `Gai.GaServ` | origin-src/unpv13e/libgai/ga_serv.c:7-57 | makes the calls the service string asks for and returns the right code; with a type in the hint and a port number, which entries get the port |
| `AddrList.CallsMakeGroups` | origin-src/unpv13e/libgai/ga_port.c:30-65 | any calls with distinct types turn each address into its own group |
| `AddrList.EachCallFindsAll` | origin-src/unpv13e/libgai/ga_port.c:34-64 | each such call returns k |
| `AddrList.CallExactly` | origin-src/unpv13e/libgai/ga_port.c:36-64 | what one call makes of any list, entry by entry, and what it counts |
| `AddrList.TypedList` | origin-src/unpv13e/libgai/ga_port.c:44-60 | a list without the clone flag keeps its length; exactly the Internet entries of the called type get the port and are counted |
| `AddrList.CrossProduct` | origin-src/unpv13e/libgai/ga_port.c:30-65 | k addresses and m types give k * m entries, each pair once with its port, addresses in order |
| `AddrList.NumericServiceAlternates` | origin-src/unpv13e/libgai/ga_serv.c:16-31 | a port number gives 2k entries, STREAM and DGRAM alternating, and counts 2k |
| `AddrList.NumericService` | origin-src/unpv13e/libgai/ga_serv.c:15-31 | a printed number, whatever follows its digits, leads to one call with that port for the type asked for, or to stream and datagram |
| `AddrList.NamedService` | origin-src/unpv13e/libgai/ga_serv.c:32-48 | a name leads to a stream call if tcp knows it and then a datagram call if udp does, as far as the type asked for allows |
| `Checksum.InCksum` | origin-src/unpv13e/libfree/in_cksum.c:3-32 | gives the RFC 1071 checksum exactly when the sum of the words is below 2^32 |
| `Checksum.OnesSumIsCanon` | origin-src/unpv13e/libfree/in_cksum.c:16-30 | the one's complement sum is the residue modulo 0xffff |
| `Checksum.WordsAt` | origin-src/unpv13e/libfree/in_cksum.c:16-25 | the words that are added, byte by byte for both byte orders |
| `Checksum.OddPadded` | origin-src/unpv13e/libfree/in_cksum.c:21-25 | an odd message counts as if a zero byte followed |
| `Checksum.TwoFolds` | origin-src/unpv13e/libfree/in_cksum.c:27-30 | two folds bring any 32-bit sum to that residue |
| `Checksum.WrapExact` | origin-src/unpv13e/libfree/in_cksum.c:16-19 | a wrapped accumulator always gives another residue |
| `Checksum.SafeLengths` | origin-src/unpv13e/libfree/in_cksum.c:16-25 | no message of a length wraps the accumulator exactly up to 131074 bytes |
| `Checksum.StoredVerifies` | origin-src/unpv13e/libfree/in_cksum.c:3-32 | the checksum stored in its zeroed field makes the whole sum to zero, and so does 0xffff for zero |
| `Checksum.ByteOrderIndependent` | origin-src/unpv13e/libfree/in_cksum.c:16-24 | hosts of either byte order store the same two bytes |
| `Checksum.WordOrderIndependent` | origin-src/unpv13e/libfree/in_cksum.c:16-19 | the order of the words does not matter |
| `UdpWrite.UdpWrite` | origin-src/unpv13e/udpcksum/udpwrite.c:28-72 | the exact bytes of the datagram, with the RFC 768 checksum or none |
| `UdpWrite.OverlayChecksum` | origin-src/unpv13e/udpcksum/udpwrite.c:37-51 | the zero-filled overlay sums to the pseudo-header checksum |
| `UdpWrite.WireFormat` | origin-src/unpv13e/udpcksum/udpwrite.c:35-72 | every field of the datagram by position, with both lengths |
| `UdpWrite.PseudoHeaderFormat` | origin-src/unpv13e/udpcksum/udpwrite.c:36-56 | the bytes the checksum covers are the pseudo-header of RFC 768, the UDP header and the data |
| `UdpWrite.SentVerifies` | origin-src/unpv13e/udpcksum/udpwrite.c:51-52 | the checksum sent is never zero and verifies at the receiver |
| `UdpWrite.SentBytesSameOnAllHosts` | origin-src/unpv13e/udpcksum/udpwrite.c:51-52 | the checksum bytes do not depend on the host |
| `WebScheduler.Web.StartConnection` | origin-src/unpv13e/nonblock/start_connect.c:11-30 | the file becomes connecting or reading, with its descriptor in the right sets |
| `WebScheduler.Web.WriteGetCommand` | origin-src/unpv13e/nonblock/write_get_cmd.c:9-17 | the file becomes reading |
| `WebScheduler.Web.FillUp` | origin-src/unpv13e/nonblock/web.c:33-43 | the inner loop opens connections as the function says |
| `WebScheduler.Web.ServeFile` | origin-src/unpv13e/nonblock/web.c:50-78 | one file after Select |
| `WebScheduler.Web.ServeAll` | origin-src/unpv13e/nonblock/web.c:49-79 | all files after Select |
| `WebScheduler.Web.Fetch` | origin-src/unpv13e/nonblock/web.c:32-80 | the whole loop over any kernel answers |
| `WebScheduler.FillKeepsInv` | origin-src/unpv13e/nonblock/web.c:33-43 | "nothing found" is unreachable; it stops at the limit or with no file left |
| `WebScheduler.ServeKeepsInv` | origin-src/unpv13e/nonblock/web.c:50-78 | a file's progress keeps counters and sets right |
| `WebScheduler.EveryRun` | origin-src/unpv13e/nonblock/web.c:28-80 | counters count what they name, sets are the descriptors of their phases, and the end means every file done and both sets empty |
| `WebScheduler.FillExactly` | origin-src/unpv13e/nonblock/web.c:33-43 | the inner loop gets through exactly when the answers it needs are good, and then the first untouched files have their connections in their phases, and only those |
| `WebScheduler.ServeExactly` | origin-src/unpv13e/nonblock/web.c:49-79 | a connecting file becomes reading exactly when reported, a file being read is done exactly at its end of file, and no other changes |
| `WebScheduler.TurnExactly` | origin-src/unpv13e/nonblock/web.c:32-80 | both together for every turn that goes on |
| `WebScheduler.DoneMeansRead` | origin-src/unpv13e/nonblock/web.c:67-77 | in every run a file is done exactly if in some round it met its end of file while it was read |
| `WebScheduler.FinishedMeansRead` | origin-src/unpv13e/nonblock/web.c:32-81 | when the program ends every file has met its end of file |
| `WebScheduler.SelectWaitsOnSomething` | origin-src/unpv13e/nonblock/web.c:45-47 | every Select watches something, with at most maxnconn connections open |
| `Readline.BufferedReader.MyRead` | origin-src/unpv13e/lib/readline.c:8-26 | the next byte of the descriptor, however reads are cut and interrupted, or 0 at its end, or -1 for an error |
| `Readline.BufferedReader.Readline` | origin-src/unpv13e/lib/readline.c:28-49 | stores the specified line and its NUL, leaves the rest, returns its own count, or -1 at an error |
| `Readline.BufferedReader.ReadLines` | origin-src/unpv13e/lib/readline.c:28-51 | calls in a row store the specified lines and leave the specified rest |
| `Readline.BufferedReader.Readlinebuf` | origin-src/unpv13e/lib/readline.c:51-57 | what was read is what was delivered and what is exposed; -1 only after a read that failed |
| `Readline.OneByteReader.Readline` | origin-src/unpv13e/server/readline.c:4-27 | stores the same specified line and leaves the same rest |
| `Readline.OneByteReader.ReadLines` | origin-src/unpv13e/server/readline.c:4-27 | calls in a row store the same lines and leave the same rest |
| `Readline.Next` | origin-src/unpv13e/server/readline.c:10-26 | a line ends at its only newline, at the end of file, at an error or when full |
| `Readline.NextShape` | origin-src/unpv13e/server/readline.c:10-26 | the items are the line, the end of file or error that stopped it, and the rest |
| `Readline.CutsDoNotMatter` | origin-src/unpv13e/lib/readline.c:13-22 | where chunks are cut and calls interrupted makes no difference; ends of file and errors keep their places |
| `Readline.CountsDiffer` | origin-src/unpv13e/lib/readline.c:40-48 | what both forms return, and that they differ exactly for text cut short by the end of file |
| `Readline.LinesDeliverEverything` | origin-src/unpv13e/lib/readline.c:28-49 | successive calls deliver the descriptor's bytes, each once and in order |
| `SelectServer.Server.Accept` | origin-src/unpv13e/tcpcliserv/tcpservselect01.c:48-60 | the first free entry takes the descriptor; set and bounds follow |
| `SelectServer.Server.ServeOne` | origin-src/unpv13e/tcpcliserv/tcpservselect01.c:70-76 | one read, echoed or closing |
| `SelectServer.Server.OnePass` | origin-src/unpv13e/tcpcliserv/tcpservselect01.c:36-81 | with its early exits a pass does all that a full scan would |
| `SelectServer.AcceptKeepsInv` | origin-src/unpv13e/tcpcliserv/tcpservselect01.c:48-60 | a new client keeps table and summaries in agreement |
| `SelectServer.ServeKeepsInv` | origin-src/unpv13e/tcpcliserv/tcpservselect01.c:70-76 | so does serving or closing one |
| `SelectServer.TurnServesEachOnce` | origin-src/unpv13e/tcpcliserv/tcpservselect01.c:36-81 | each reported client is read exactly once in a pass |
| `SelectServer.TurnTable` | origin-src/unpv13e/tcpcliserv/tcpservselect01.c:36-81 | one turn entry by entry: an empty read closes, the new client takes the first free entry, all else stays; too many clients exactly when no entry is free |
| `SelectServer.TurnEchoes` | origin-src/unpv13e/tcpcliserv/tcpservselect01.c:67-80 | one turn connection by connection: a reported client is sent what one read of it gives, nobody else anything |
| `SelectServer.EveryRun` | origin-src/unpv13e/tcpcliserv/tcpservselect01.c:26-82 | allset is listenfd and the table's distinct entries, maxi and maxfd bound them, and what is sent back is what was read |

## Left out

- The sockets themselves, DNS and service lookups, signals' delivery times, and the one-call wrappers that exit on error: they are inputs, and an exit ends a run.
- Programs that only fill in an address and call one function, and everything under my-src.
- Time never runs by itself: an alarm may go off at any point of a call, whatever its length.
- Rtt.RttInfo.RttStop: real arithmetic; the rounding of float and double is not modelled.
- Ntop.InetNtop4: the copy into the caller's buffer is the returned text; where its NUL would fall outside is stated, not modelled.
- Ntop.FormatWords: the fixed buffer tmp is a growing string; that 46 characters suffice follows from the bound of 39.
- Pton4.InetPton4 and its companions take a C string without its NUL; characters beyond ASCII are not interpreted.
- ReliableUdp.Run: no other sender writes to either socket; 32-bit words are laid out little-endian in the client's own header, which nobody else reads.
- Prefork.EveryRun: a child never terminates, and a connection waiting to be accepted is not withdrawn.
- SigioRing.EveryInterleaving: the handler runs to its end without arrivals being cut apart from one another; a failing recvfrom or Sendto ends the program and is left out, as is the histogram.
- ThreadPool.EveryInterleaving: threads are as many as were created; serving a connection is one step.
- Gai.GaAistruct: the canonical name is left out, and so is running out of memory everywhere in the list code. The missing address of an entry whose path did not fit appears as an empty one, and removing the path as a flag. Ports are numbers, not their two bytes in network order.
- AddrList.NumericServiceAlternates: atoi beyond the range of int is undefined in C and is the plain number modulo 2^16 here.
- UdpWrite.UdpWrite: requires a buffer of exactly the datagram's size; the IP checksum is the kernel's.
- WebScheduler.Web.Fetch: writing the command always succeeds; the contents of the replies are not kept.
- Readline.OneByteReader.Readline: to this form, which does not retry, an interrupted call is an error like any other; the two forms are compared over descriptors where none occurs.
- SelectServer.Server.OnePass: writing back always succeeds in full.
