# Gargoyle: a verified model

Gargoyle is firmware for routers together with the tools that install and drive it. This project
models its most intricate pieces in Dafny and proves what they promise.

| file | what it models |
|---|---|
| `Words.dfy` | bytes, 16-bit words, the four-byte sequence numbers of uIP |
| `Tcp.dfy`, `Uip.dfy` | `uip_process` for TCP, as functions on one connection and in place on the connection table |
| `TcpInvariant.dfy`, `Table.dfy`, `Mss.dfy` | what every TCP event keeps; giving up; demultiplexing, slots and ports; the mss |
| `Opening.dfy`, `Options.dfy` | connections opened by a peer, as runs; the loop over the TCP options |
| `Frames.dfy`, `TwoStacks.dfy` | the packets a connection sends; two stacks that open, use and close a connection with each other |
| `Psock.dfy`, `Reading.dfy` | the protosocket layer; `psock_readto` against the byte stream |
| `Sending.dfy`, `SendingEnds.dfy`, `SendingLimits.dfy`, `SendingMss.dfy`, `Retransmission.dfy`, `Receiving.dfy` | whole runs of a connection over a network that loses, repeats and reorders |
| `Checksum.dfy`, `Packets.dfy`, `Corruption.dfy` | the Internet checksum; headers in `uip_buf`; the ICMP echo reply; what the checksums notice |
| `Arp.dfy` | the ARP cache |
| `Tftp.dfy`, `Partitions.dfy` | the TFTP server and the partition layout of the flasher |
| `Quota.dfy`, `QuotaEnforced.dfy`, `QuotaThrottled.dfy`, `QuotaCounted.dfy`, `RestoreQuotas.dfy`, `Bitmask.dfy` | the compiler from quota sections to nftables rules, and an interpreter for the rules |
| `Ddns.dfy`, `DdnsClient.dfy`, `DdnsLife.dfy`, `DdnsDaemon.dfy` | the dynamic-DNS daemon, its clients, its whole life, and the daemon in place |
| `HttpSplit.dfy` | the header/body split of `ewget` |
| `Url.dfy`, `Template.dfy` | escaping, template substitution and the parsing of credentials |
| `Sha256Words.dfy`, `Sha256.dfy` | SHA-256 as FIPS 180-4 states it, on bit-vectors, and the streaming context |
| `Sha256Example.dfy`, `Sha256Constants.dfy` | the published example; the constants as roots of primes |

Where the source changes things step by step there is a class or a method with loops, proved
against a function; the theorems are about that function and about runs of it. The host is
little-endian and every wrap-around of an 8-, 16- or 32-bit field is written out. The application
callback of uIP is an arbitrary function from what it is shown to what it leaves behind, and the
protosocket layer is one such function. C leaves open in which order `data_acked(s) & send_data(s)`
is evaluated (`fon-flash/psock.cpp:207`); the comment above it means left to right, and so does the
model.

What the proofs brought to light, each with the exact condition proved:

- A connection in TIME_WAIT whose application answers the peer's FIN with `uip_stop` is never
  released: the timer compares the whole of `tcpstateflags`, STOPPED bit included
  (`TcpInvariant.StoppedOnFin`), and so does the search for a slot (`Table.SlotIsLost`). FIN_WAIT_2 is
  never stopped and always ends (`TcpInvariant.WaitEnds`).
- `psock_send` of more than one segment ends on the first acknowledgement, with bytes that were only
  just handed over (`Sending.FirstAckEndsSend`), so that a message longer than the mss can count as
  sent with only its first segment accepted, and one of 65536 bytes with nothing sent
  (`SendingLimits.EndsAfterOneSegment`); reliable sending therefore asks for messages of at most one mss.
- A SYN without an MSS option leaves a slot that was never used with an mss of zero for good. On such a
  connection no byte is ever sent and `psock_send` never ends (`SendingMss.SendEndsIffMss`,
  `SendingMss.NoSendWithoutOption`). Its loop does end in every callback of every run
  (`Mss.EveryCallIsBounded`).
- A poll request does not reset `uip_slen`. If that is not zero and the application has nothing left
  to send, bytes of the buffer that nobody sent go out as the next of the stream
  (`SendingLimits.PollIsSafeIffHarmless`); a second connection that has just sent is enough for that
  (`Opening.StaleRun`).
- The counter of the loop over the TCP options has eight bits. The loop ends if and only if it does not
  come twice to one place (`Options.LoopEndsIff`), which lengths that add up to 256 make it do.
- After a loss a message gets across if and only if it has not been repeated for the last time already
  (`Retransmission.RecoversIff`).
- Data that comes together with the acknowledgement of our FIN, but without a FIN of the peer's, is
  counted and not acknowledged (`Frames.ClosingAdvances`).
- Of a segment with TCP options the application is given the options first and loses as many bytes at
  the end (`Receiving.OptionsShiftPayload`).
- `psock_readto` with a buffer of no bytes never ends (`Reading.NoBufferNeverEnds`).
- A quota on explicit addresses that are all of IPv6 is never enforced, because the IPv6 rule is
  emitted only where its test differs from the IPv4 one; every other quota is enforced on exactly its
  own packets (`QuotaEnforced.QuotaIsEnforced`, `QuotaEnforced.Ip6OnlyIsNeverEnforced`).
- A forced dynamic-DNS update whose script answers "not needed" is rescheduled into the past; the
  update loop then never ends, unless the clock goes back, and no request is read any more: with that
  one service always (`Ddns.ContraryScriptLoops`), with others beside it if its forced update fell due
  since the daemon started (`Ddns.ContraryScriptBlocks`, `Ddns.RescheduledWithinInterval`). Asking for one service twice before its update ends the daemon
  (`DdnsClient.BatchSurvived`).
- `http_req_escape` leaves some reserved characters alone, the plus sign among them
  (`Url.SomeReservedLeft`).
- The blank line that ends an HTTP header is missed exactly if its carriage return is a read of its
  own (`HttpSplit.SplitsAtFirstBlankLine`).
- A host without an address answers pings with a broken IP header checksum
  (`Packets.EchoKeepsIpSum`), and an echo request that is all zero after its checksum gets a reply
  whose ICMP sum folds to +0 instead of -0 (`Packets.EchoReplyAllOnes`).
- An ARP entry for an address with a half of 0xffff is never found again by an update and so gets
  duplicated (`Arp.UpdateKeepsUnique`, `Arp.StoredTwice`).
- From 65536 blocks on a TFTP transfer has no end: the 16-bit block number comes round and the client
  is sent the first blocks over again (`Tftp.EndIsReachable`, `Tftp.TransferIsSafe`).

## Model

| member | source | states |
|---|---|---|
| Sending.ReliableSending | fon-flash/psock.cpp:144-213 | over every run with loss, repetition and reordering, any segments of the peer (FIN included), ticks and harmless polls, and a receiver that acknowledges cumulatively as RFC 793 says, for messages of at most one mss: the bytes accepted are a prefix of the messages given to psock_send, and a psock_send has ended only if its message and all before it were accepted |
| Sending.AckEndsSend | fon-flash/uip.cpp:1442-1478 | the partner: once the receiver has the message, its acknowledgement, with or without a FIN, ends the psock_send that waits for it |
| SendingEnds.SendingCanFinish | fon-flash/psock.cpp:176-213 | and it can always be brought about: from any fresh connection some run takes all messages to the receiver and ends every psock_send |
| Retransmission.ExpiryRepeats | fon-flash/uip.cpp:762-804 | in every state with something outstanding a tick with the timer at zero that does not give up sends a packet with seqno snd_nxt that takes exactly len units of sequence space: the SYN, the FIN, or as many bytes as are outstanding, beginning with those the application offers again |
| Retransmission.RecoversIff | fon-flash/uip.cpp:743-804 | from every state of a run in which the connection is up, with all packets under way lost in both directions and a peer that sends no data of its own: some run goes on that takes all messages to the receiver and ends every psock_send, if and only if the message outstanding has not been repeated for the eighth and last time while the receiver lacks some of it |
| Sending.FirstAckEndsSend | fon-flash/psock.cpp:195-208 | with a set acknowledged flag psock_send ends in this callback; it leaves bytes just sent and not acknowledged exactly if more than one mss was left |
| SendingLimits.EndsAfterOneSegment | fon-flash/psock.cpp:176-213 | why messages have to fit: for every message there is a run that ends its psock_send with min(mss, length modulo 65536) bytes accepted, which is the whole message if and only if it is not longer than the mss |
| SendingMss.SendEndsIffMss | fon-flash/psock.cpp:159-208 | from a fresh connection some run ends the psock_send of a message if and only if the initial mss is not zero or the length of the message is zero modulo 65536 |
| SendingMss.NeverSends | fon-flash/uip.cpp:1687-1731 | with an initial mss of zero no state of any run has a byte of the message on the network, and psock_send waits in all of them |
| SendingMss.NoSendWithoutOption | fon-flash/uip.cpp:1318-1372 | a run of the table that leads there: a SYN without an MSS option to a slot that was never used; no run of sending from it ends psock_send |
| Mss.EveryCallIsBounded | fon-flash/psock.cpp:195-208 | in every run of the table no callback has an mss of zero together with the acknowledged flag, so that the loop of psock_send ends in every callback |
| SendingLimits.PollIsSafeIffHarmless | fon-flash/uip.cpp:700-707 | from any state of a run a poll request leaves the receiver with a prefix of the messages, whatever it takes next, if and only if uip_slen was zero, or the connection is not polled, or there is something left to send |
| SendingLimits.StalePoll | fon-flash/uip.cpp:1690-1729 | what it does otherwise: the first min(uip_slen, mss) bytes of the buffer go out under the next sequence number of the stream |
| Opening.StaleRun | fon-flash/uip.cpp:700-707 | a run with two connections in which one sends on a tick and the other, idle one is then polled: bytes of the buffer go out on it though its application gave none |
| Receiving.ExactlyOnce | fon-flash/uip.cpp:1397-1627 | for segments cut from one peer stream in any order with repeats, ticks and polls: opening or established, the payloads flagged NEWDATA are together the stream from irs+1 up to rcv_nxt; in LAST_ACK they are all of it; they are always a prefix |
| Receiving.OutOfSequenceIgnored | fon-flash/uip.cpp:1427-1436 | a supplement to ExactlyOnce: data, SYN or FIN not at rcv_nxt changes nothing in the connection, reaches no application and is answered with rcv_nxt |
| Receiving.OptionsShiftPayload | fon-flash/uip.cpp:1418-1422 | of the next segment with a header of any length, without FIN, SYN, RST or URG, the application is given the payload, whatever its bytes, if and only if there are no options or no payload |
| Reading.ReadToIgnoresSegmentation | fon-flash/psock.cpp:253-297 | from nothing unread and a buffer of at least one byte, psock_readto ends if and only if the marker is in the stream, in the callback that brings it, with the first min(bufsize, n) of the n bytes through the marker stored and the rest of that packet unread; no packet is read twice |
| Reading.NoBufferNeverEnds | fon-flash/psock.cpp:281-297 | with a buffer of no bytes it never ends |
| TcpInvariant.InputKeeps | fon-flash/uip.cpp:1397-1806 | every segment keeps: len 1 in SYN_SENT, SYN_RCVD, FIN_WAIT_1, CLOSING and LAST_ACK, len 0 in FIN_WAIT_2 and TIME_WAIT, no STOPPED bit in the SYN states, FIN_WAIT_1, FIN_WAIT_2 and LAST_ACK, mss <= initialmss <= UIP_TCP_MSS, nrtx <= 8 (5 in the SYN states); the frame emitted fits uip_buf |
| TcpInvariant.TimerKeeps | fon-flash/uip.cpp:710-813 | so does every tick |
| TcpInvariant.PollKeeps | fon-flash/uip.cpp:700-707 | and every poll request |
| Frames.InputFrames | fon-flash/uip.cpp:1811-1882 | every packet sent in answer to a segment, except a reset in SYN_SENT, carries the addresses, ports, both sequence numbers and the window of the connection as the segment leaves it, and an MSS option exactly with a SYN |
| Frames.TimerFrames | fon-flash/uip.cpp:1811-1882 | so does every packet sent on a tick |
| Frames.ClosingAdvances | fon-flash/uip.cpp:1746-1796 | in FIN_WAIT_1 and FIN_WAIT_2 a segment in sequence advances rcv_nxt by its data and FIN, and is acknowledged with the new number unless it acknowledges our FIN in FIN_WAIT_1 without being a FIN itself |
| Frames.StrangersAreReset | fon-flash/uip.cpp:1231-1282 | a segment that belongs to nobody is answered with RST and ACK to its own address and ports, seqno its ackno and ackno its seqno plus one, unless it is a reset; nothing changes |
| Frames.RefusedIsReset | fon-flash/uip.cpp:1560-1565 | so is anything but the right SYN-ACK in SYN_SENT, which closes the connection |
| Frames.WindowIsKept | fon-flash/uip.cpp:1640-1712 | new data sent in answer to a segment is within its window, or within the initial mss if the window is zero |
| Frames.RttFollows | fon-flash/uip.cpp:1456-1470 | a measurement moves the estimate of the round trip time towards itself and not beyond, and the variation towards how far it was off, as long as nothing wraps around |
| Frames.AckRestarts | fon-flash/uip.cpp:1442-1478 | only what was sent once is measured; an acknowledgement leaves nothing outstanding and the timer at the timeout |
| TcpInvariant.GiveUp | fon-flash/uip.cpp:743-804 | without incoming packets a connection with outstanding data keeps its state for exactly Lifetime(c) - 1 ticks and is closed by the next, at most 256 + 245 in all, whatever the application does |
| TcpInvariant.LastOutstandingTick | fon-flash/uip.cpp:745-760 | that tick tells the application and sends the peer a reset, and frees the slot if and only if the application does not answer with uip_stop |
| TcpInvariant.WaitEnds | fon-flash/uip.cpp:733-738 | FIN_WAIT_2 and TIME_WAIT last for exactly WaitTicks(timer) <= 256 silent ticks, wherever the 8-bit timer starts; FIN_WAIT_2 is then always CLOSED, TIME_WAIT if and only if it is not stopped |
| TcpInvariant.StoppedOnFin | fon-flash/uip.cpp:1780-1796 | the peer's FIN takes FIN_WAIT_2 to TIME_WAIT, stopped if and only if the application answers the notice with uip_stop |
| TcpInvariant.StoppedForEver | fon-flash/uip.cpp:733-738 | a stopped TIME_WAIT is changed by no tick, segment or poll ever after |
| Table.SlotIsLost | fon-flash/uip.cpp:1294-1306 | over runs of the table: a slot with a stopped TIME_WAIT stays as it is for the rest of the run, whatever arrives and whoever connects |
| Table.PickMeaning | fon-flash/uip.cpp:433-446 | the slot taken is a CLOSED one if there is any, otherwise one in TIME_WAIT with maximal timer; none is taken only if there is neither |
| Table.PortSearchEnds | fon-flash/uip.cpp:415-431 | a free port is found within UIP_CONNS + 1 tries |
| Table.RunKeepsInvariant | fon-flash/uip.cpp:1204-1326 | over every run of segments, ticks, polls and connects no two connections that are not CLOSED share local port, remote port and remote address, every connection keeps its invariant and every frame fits the buffer |
| Opening.Handshake | fon-flash/uip.cpp:1287-1372 | a SYN of a new peer to a listening port and the acknowledgement of the SYN-ACK open a connection in the first free slot, with the mss of its option or else that of the slot, and change nothing else |
| TwoStacks.Meet | fon-flash/uip.cpp:1287-1566 | one stack connects and another listens: SYN, SYN-ACK and ACK, each as the other side reads it, leave both ESTABLISHED, each expecting the number the other sends next, whatever the initial ones |
| TwoStacks.Talk | fon-flash/uip.cpp:1568-1731 | what one application then sends in a segment the other is given exactly, the acknowledgement is taken as such, and both expect each other's next number again |
| TwoStacks.Part | fon-flash/uip.cpp:1568-1796 | one side closes: FIN, FIN and ACK, ACK, and the other is CLOSED and the first in TIME_WAIT, which 120 ticks end |
| TwoStacks.PartAtOnce | fon-flash/uip.cpp:1746-1806 | both close at once: both go through CLOSING to TIME_WAIT |
| TwoStacks.LastAckLost | fon-flash/uip.cpp:795-804 | if the last acknowledgement is lost the repeated FIN is acknowledged again, and that closes the connection |
| TwoStacks.HalfClosed | fon-flash/uip.cpp:1762-1796 | the acknowledgement of our FIN alone leads to FIN_WAIT_2, and the peer's FIN from there to TIME_WAIT |
| TwoStacks.AbortResets | fon-flash/uip.cpp:1669-1675 | an abort closes the connection at once and sends a reset |
| Uip.Uip.Add32 | fon-flash/uip.cpp:250-275 | the bytewise addition with carries into uip_acc32 is addition modulo 2^32 |
| Uip.Uip.AddRcvNxt | fon-flash/uip.cpp:675-683 | rcv_nxt advances by n modulo 2^32, nothing else changes |
| Uip.Uip.Send | fon-flash/uip.cpp:1911-1920 | uip_send puts the bytes over the start of the application area and their number into uip_slen; nothing for an empty message |
| Uip.Uip.AppsendLabel | fon-flash/uip.cpp:1668-1731 | abort, close, clamp to the mss or to what is in flight, and the packet sent, as the function AppSend has it |
| Uip.Uip.CheckAck | fon-flash/uip.cpp:1442-1480 | exactly an acknowledgement of all that is outstanding advances snd_nxt, estimates the round trip time and clears len |
| Uip.Uip.Found | fon-flash/uip.cpp:1397-1806 | processing a segment in place has exactly the effect Tcp.Input has on that connection and none on others |
| Uip.Uip.Periodic | fon-flash/uip.cpp:710-813 | a tick in place is Tcp.Timer on its connection, with iss counted up and uip_slen reset and set as the callback leaves it |
| Uip.Uip.PollConn | fon-flash/uip.cpp:700-707 | a poll request in place is Tcp.Poll on its connection, with the uip_len and uip_slen it finds |
| Uip.Uip.FindSlot | fon-flash/uip.cpp:1294-1306 | the scan finds what Table.Pick specifies |
| Uip.Uip.ChoosePort | fon-flash/uip.cpp:416-431 | the search from lastport ends with the first port that is not in use |
| Uip.Uip.ConnectTo | fon-flash/uip.cpp:411-472 | uip_connect is the connect step of the table |
| Uip.Uip.TcpInput | fon-flash/uip.cpp:1202-1282 | demultiplexing in place is the segment step of the table: a matching connection, a listener, or a reset; uip_slen is what the callback leaves, or as before if there is none |
| Uip.Uip.FoundListen | fon-flash/uip.cpp:1287-1372 | a SYN for a listening port fills a slot, if there is one, and answers SYN and ACK |
| Uip.Uip.ListenOn | fon-flash/uip.cpp:533-541 | uip_listen is the listen step of the table: the first free entry takes the port |
| Uip.Uip.StopListening | fon-flash/uip.cpp:522-530 | uip_unlisten is the unlisten step |
| Psock.Psock.SendBuf | fon-flash/psock.cpp:176-213 | one schedule of psock_send is Psock.Send, in every callback that the stack makes |
| Psock.Psock.BufBufto | fon-flash/psock.cpp:110-142 | copies up to and including the marker or until the buffer is full, then skips up to the marker; says whether it was found |
| Psock.Psock.ReadToMarker | fon-flash/psock.cpp:272-297 | one schedule of psock_readto is Psock.ReadTo |
| Checksum.AddWord | fon-flash/uip.cpp:293-297 | adding a word with its end-around carry is addition in one's complement |
| Checksum.Chksum | fon-flash/uip.cpp:281-310 | the loop returns the one's complement sum of the start value and of all 16-bit words, an odd byte padded: congruent to the total modulo 65535 and zero only for a total of zero |
| Checksum.ChksumComposes | fon-flash/uip.cpp:346-353 | summing two parts one after the other is summing the whole, if the first has even length |
| Checksum.WordSumZero | fon-flash/uip.cpp:355-355 | the total is zero exactly for all-zero bytes |
| Checksum.ComplementChecks | fon-flash/uip.cpp:1880-1882 | storing the complement of what the sum with a zero field returned makes the sum check; the stored field is zero exactly if it checked already |
| Packets.IpChksum | fon-flash/uip.cpp:320-329 | returns 0xffff exactly if the words of the header add up to zero modulo 65535 |
| Packets.UpperLayerChksum | fon-flash/uip.cpp:332-356 | the same for pseudo header and TCP or UDP packet |
| Packets.SendTcp | fon-flash/uip.cpp:1811-1882 | around the data that the application left in it the buffer holds the frame: its numbers, ports, addresses, window, MSS option and, by the masks of section 3.1 of RFC 793, its control bits, with both checksums right |
| Packets.SendUdp | fon-flash/uip.cpp:1146-1184 | so does a datagram, with a checksum field that is never zero (RFC 768) |
| Packets.Receive | fon-flash/uip.cpp:847-1198 | the receive checks in place accept exactly the packets IsTcp describes and read their fields, the control bits by their masks in RFC 793 |
| Packets.SentIsReceived | fon-flash/uip.cpp:946-952 | round trip: the packet made of a frame is accepted at its destination and read as that frame, option and data included, with the data length the sender meant |
| Packets.Transmit | fon-flash/uip.cpp:1811-1882 | the same from buffer to buffer, sending and receiving composed |
| Corruption.CorruptionIsNoticed | fon-flash/uip.cpp:946-952 | whichever one byte of an accepted packet is changed, in its headers or its data, it is not accepted any more |
| Corruption.NotForOthers | fon-flash/uip.cpp:905-930 | a packet for another host is not taken, however right it is |
| Corruption.PortOnTheWire | fon-flash/uip.cpp:467-468 | a port in network order goes over the wire with its most significant byte first |
| Options.ParseOptions | fon-flash/uip.cpp:1334-1362 | the loop over the options in place finds what the walk over them ends with |
| Options.LoopEndsIff | fon-flash/uip.cpp:1334-1362 | the loop ends if and only if it does not come twice to one place, and then within as many turns as there are bytes of options |
| Options.EndsWithoutWrap | fon-flash/uip.cpp:1353-1361 | it ends whenever no length takes the counter beyond 255 |
| Options.LengthsAddUp | fon-flash/uip.cpp:1353-1361 | it never ends once it comes to an option whose length and that of the next add up to 256 |
| Options.SynCarriesMss | fon-flash/uip.cpp:1517-1546 | round trip: the option of a SYN that the stack sends is read by the other side as its mss, and a frame without option as none |
| Packets.Echo | fon-flash/uip.cpp:985-1012 | the echo code changes type, checksum and addresses and nothing else, and only for echo requests |
| Packets.EchoKeepsIcmpSum | fon-flash/uip.cpp:1002-1008 | the incremental update keeps the ICMP sum modulo 65535, by byte swap as multiplication by 256 |
| Packets.EchoKeepsIpSum | fon-flash/uip.cpp:1010-1012 | the IP header of the reply checks if the request's did and the host has an address; without one, if and only if the words of the request's destination add up to zero |
| Packets.EchoReplyAllOnes | fon-flash/uip.cpp:1004-1008 | the reply's sum folds to all ones if and only if the request has a code, identifier, sequence number or data that is not all zero |
| Arp.CacheAgrees | fon-flash/uip_arp.cpp:141-218 | after any updates (of addresses with neither half 0xffff) and ticks no address is in the table twice and each is there with the hardware address last supplied for it |
| Arp.UpdateKeepsUnique | fon-flash/uip_arp.cpp:157-183 | an update keeps addresses apart if and only if its address has no half of 0xffff, or is the broadcast address, or is not in the table, or the table is full and its entry is the one thrown away |
| Arp.StoredTwice | fon-flash/uip_arp.cpp:157-218 | a run that stores an address twice: any address with one half of 0xffff, supplied twice to an empty table |
| Arp.EvictsOldest | fon-flash/uip_arp.cpp:197-211 | in every run of fewer than 256 ticks from an empty table: when no entry is free and the address is not found, the entry replaced is an oldest one |
| Arp.EntryLasts | fon-flash/uip_arp.cpp:141-156 | before the clock wraps around an entry is there as long as fewer than 120 ticks have passed since it was supplied, and gone from then on |
| Arp.Arp.Timer | fon-flash/uip_arp.cpp:141-156 | exactly the used entries of age 120 or more are freed |
| Arp.Arp.Update | fon-flash/uip_arp.cpp:157-218 | the searches in place fill the slot that the specification names |
| Arp.Arp.Out | fon-flash/uip_arp.cpp:354-418 | the next hop is the destination on the own network by the netmask and the router otherwise; a packet goes to the hardware address last supplied for it, or is replaced by a request for it |
| Arp.RoutedIffForeign | fon-flash/uip_arp.cpp:370-385 | the next hop is the destination if it agrees with the host in every bit of the netmask, and the router if not |
| Tftp.TransferIsSafe | fon-flash/fon-flash.cpp:819-914 | in all runs with loss, repetition and reordering a lock-step RFC 1350 client holds a prefix of the file (of whole blocks) and is done only with all of it, if and only if the file has fewer than 65536 blocks |
| Tftp.TransferGoesOn | fon-flash/fon-flash.cpp:891-911 | one exchange without loss takes it a block further, from any reachable state |
| Tftp.TransferCanFinish | fon-flash/fon-flash.cpp:891-911 | after whatever has happened some run goes on until the client has all of the file |
| Tftp.EndIsReachable | fon-flash/fon-flash.cpp:891-911 | some run is ever done if and only if the file has fewer than 65536 blocks |
| Tftp.Server.Appcall | fon-flash/fon-flash.cpp:819-914 | the answer depends only on the file in transfer and the acknowledged block |
| Partitions.MakeAbsolute | fon-flash/fon-flash.cpp:38-114 | the two loops in place compute the layout Absolute, all sums modulo 2^32, the last of several files with one identifier counting |
| Partitions.PartitionsTile | fon-flash/fon-flash.cpp:77-112 | partitions without fixed address tile the flash from its start in whole pages, inside it, with less than a page left over if one is of maximal length |
| Partitions.MaxStopsAtFixed | fon-flash/fon-flash.cpp:90-106 | in the resulting layout a fixed partition directly after one of maximal length keeps its address, and the one before ends at or before it if and only if it starts at or before it; its length is then the smaller of the space the others leave and the gap |
| Partitions.SizeIsOfFile | fon-flash/fon-flash.cpp:56-64 | the size found is that of the last of the three files with the identifier, and none if there is none |
| Quota.CompilePreservesMeaning | package/gargoyle-firewall-util/src/restore_quotas.c:278-346 | walking any packet through an emitted chain, every limit rule applies exactly when the sections and the subnets say so: that of an explicit quota to packets of its own addresses in the chain's direction, that of an ALL_OTHERS quota when no enabled explicit quota has the packet (and, for ALL_OTHERS_INDIVIDUAL, its local address is in the subnet of its family); both groups of mark bits are clear at the end |
| QuotaEnforced.QuotaIsEnforced | package/gargoyle-firewall-util/src/restore_quotas.c:494-821 | on the walk of any packet through a compiled chain the limit of a section is met if and only if the section is enabled, has a limit for that chain, is not of IPv6 addresses only, and the packet is declared to be one of its own |
| QuotaEnforced.Ip6OnlyIsNeverEnforced | package/gargoyle-firewall-util/src/restore_quotas.c:678-681 | the failing family: a quota that lists only IPv6 addresses is met by no packet in any chain |
| QuotaEnforced.BlockedIffExceeded | package/gargoyle-firewall-util/src/restore_quotas.c:260-273 | a packet leaves a chain with the death mark if and only if the bandwidth match of some limit without throttling is exceeded whose section has the packet; otherwise the bits of the mask are clear |
| QuotaThrottled.ThrottleIsEnforced | package/gargoyle-firewall-util/src/restore_quotas.c:683-765 | on the walk of any packet a rule that would set a mark for a limit is met if and only if the section is enabled, throttles, has that limit and the packet, is not of IPv6 addresses only, and the mark is its up mark for packets that go out and its down mark for packets that come in, for the limit of the chain or, in the other two chains, that of the opposite direction |
| QuotaThrottled.ThrottledByLast | package/gargoyle-firewall-util/src/restore_quotas.c:726-765 | a packet leaves a chain with the mark of the last throttling limit that has it and is exceeded, or with the mark it came with |
| QuotaCounted.CountedOnce | package/gargoyle-firewall-util/src/restore_quotas.c:724-779 | on its walk through a chain a packet is counted exactly once against every limit for that chain that has it, and against no other limit |
| QuotaCounted.ChecksLocalHost | package/gargoyle-firewall-util/src/restore_quotas.c:694-743 | every rule that checks a limit without counting, with addresses swapped or not, asks for the packet's local address |
| RestoreQuotas.AddMarking | package/gargoyle-firewall-util/src/restore_quotas.c:500-630 | the rules emitted before any limit |
| RestoreQuotas.AddSection | package/gargoyle-firewall-util/src/restore_quotas.c:494-821 | the rules emitted for one section and chain |
| RestoreQuotas.ShiftQuota | package/gargoyle-firewall-util/src/restore_quotas.c:278-338 | the list loop skips disabled sections and puts ALL_OTHERS sections off until the others are done |
| RestoreQuotas.Restore | package/gargoyle-firewall-util/src/restore_quotas.c:260-856 | the rules emitted into the three chains are exactly those of Quota.Compile |
| Bitmask.InvertBitmask | package/gargoyle-firewall-util/src/restore_quotas.c:1226-1284 | a text is inverted if and only if it denotes a 32-bit mask, and the result denotes its complement |
| Bitmask.HexRoundTrip | package/gargoyle-firewall-util/src/restore_quotas.c:1282-1283 | printing in hexadecimal is undone by reading |
| Bitmask.PrintedDigit | package/gargoyle-firewall-util/src/restore_quotas.c:1282-1283 | the kth of n digits printed is that of 16 to the n - 1 - k |
| Bitmask.FirstDigitCounts | package/gargoyle-firewall-util/src/restore_quotas.c:1240-1270 | and so a text is read, its first digit counting most |
| Bitmask.InvertedMaskClears | package/gargoyle-firewall-util/src/restore_quotas.c:260-262 | masking with the inverted mask takes away exactly the bits of the mask |
| Ddns.RescheduledWithinInterval | package/ddns-gargoyle/src/ddns_updater.c:1019-1084 | the next update is at most a check interval away, and later than now if and only if the update is not a forced one that its script calls not needed |
| Ddns.NextUpdate | package/ddns-gargoyle/src/ddns_updater.c:1047-1084 | exactly: a check interval from now or, if earlier, when the next forced update falls due; after a failure the shorter of the two intervals from now |
| Ddns.SkippedOnlyWhenCurrent | package/ddns-gargoyle/src/ddns_updater.c:1343-1446 | unless a script itself answers not needed, an update is skipped if and only if it is not forced and the addresses agree |
| Ddns.ProcessConserves | package/ddns-gargoyle/src/ddns_updater.c:826-1092 | a turn leaves every service with exactly one node in the two queues, and results sent and requests pending add up to the same |
| Ddns.LoopAnswersRequests | package/ddns-gargoyle/src/ddns_updater.c:826-1092 | whatever the clock does: when the update loop ends every pending request has had exactly one result and every service its node in the update queue |
| Ddns.LoopEnds | package/ddns-gargoyle/src/ddns_updater.c:826-1092 | at a clock that stands still the loop ends, after at most one turn per request and per update due |
| Ddns.LoopLeavesNothingDue | package/ddns-gargoyle/src/ddns_updater.c:826-1092 | and then nothing is due, the queue being in the order of times |
| Ddns.ContraryScriptLoops | package/ddns-gargoyle/src/ddns_updater.c:1073-1084 | the counterexample: with one service, forced and due, whose script always answers not needed, the loop never ends at any clock that does not go back |
| Ddns.ContraryScriptBlocks | package/ddns-gargoyle/src/ddns_updater.c:826-1092 | nor does it with any number of other services, if the forced update of the contrary one fell due since the daemon started: it stays in the update loop for ever |
| Ddns.NotForcedSoon | package/ddns-gargoyle/src/ddns_updater.c:1047-1051 | over runs of the loop: after a successful update no turn forces another one before a force interval is over |
| DdnsClient.BatchSurvived | package/ddns-gargoyle/src/ddns_updater.c:1099-1192 | a batch of requests is survived if and only if no service is wanted twice or still pending, and then schedules exactly what is wanted |
| DdnsClient.BatchInTime | package/ddns-gargoyle/src/ddns_updater.c:1105-1192 | requests leave the remaining updates in the order of their times |
| DdnsClient.ClientReadsAll | package/ddns-gargoyle/src/ddns_updater.c:632-687 | the client never stops before the last response and never waits for one more |
| DdnsClient.PromisesKept | package/ddns-gargoyle/src/ddns_updater.c:1110-1126 | messages promised and announced are messages sent and results scheduled; with no service at all exactly the requests for all services go unanswered |
| DdnsClient.Conversation | package/ddns-gargoyle/src/ddns_updater.c:566-687 | one client and the daemon, from request to last response: all of the above together; the kth result is that of the kth job asked for, in the order of the messages, and tells that the update failed if there was no local address, that it was not needed if it was not forced and the addresses agreed, and otherwise how it went |
| DdnsClient.LoopSendsResults | package/ddns-gargoyle/src/ddns_updater.c:996-1015 | of the requests pending at its start the loop takes the kth in its kth turn and tells how that update went |
| DdnsClient.BatchInOrder | package/ddns-gargoyle/src/ddns_updater.c:1105-1192 | requests are queued in the order of the messages, each with the node of its service, the last update forgotten if the message forces it |
| DdnsClient.EveryNameAnswered | package/ddns-gargoyle/src/ddns_updater.c:614-624 | every name on the command line has one message, forced as asked, and one response, whether there is such a service or not; what is answered at once is that there is no such service |
| DdnsLife.LifeIsHealthy | package/ddns-gargoyle/src/ddns_updater.c:818-1193 | over the whole life of the daemon, batches and update loops in any order: every service has exactly one node, updates are in the order of their times, and after every update loop nothing is pending or due |
| DdnsLife.LifeEndsWithDouble | package/ddns-gargoyle/src/ddns_updater.c:1099-1192 | it ends exactly with a batch in which some service is wanted twice or while still pending |
| DdnsDaemon.Service.constructor | package/ddns-gargoyle/src/ddns_updater.c:739-794 | at the start every service has one node, due at the time read for it, in the order of these times, forced if its last update is unknown or too old |
| DdnsDaemon.FirstUpdate | package/ddns-gargoyle/src/ddns_updater.c:778-794 | the first update of a service is a forced one if and only if that is asked for or its last update is unknown, too old or in the future |
| DdnsDaemon.Service.ProcessNext | package/ddns-gargoyle/src/ddns_updater.c:831-1088 | a turn in place is Ddns.Process |
| DdnsDaemon.Service.UpdateLoop | package/ddns-gargoyle/src/ddns_updater.c:826-1092 | the loop in place, and its end |
| DdnsDaemon.Service.TakeRequests | package/ddns-gargoyle/src/ddns_updater.c:1099-1192 | a batch in place is DdnsClient.HandleAll |
| DdnsDaemon.MakeRequests | package/ddns-gargoyle/src/ddns_updater.c:594-625 | the messages a client sends |
| DdnsDaemon.ReadResponses | package/ddns-gargoyle/src/ddns_updater.c:632-687 | the client's reading loop: where it stops, and when it waits for ever |
| HttpSplit.SplitIsRight | package/ewget/src/libewget.c:765-947 | for every chunking header and body together are the stream, cut at the first blank line that can be seen |
| HttpSplit.SplitsAtFirstBlankLine | package/ewget/src/libewget.c:798-826 | the header ends at the earliest blank line of the whole stream if and only if the carriage return of that line was not a read of its own; in particular if every read inside the header but the last has two bytes or more |
| HttpSplit.FindBody | package/ewget/src/libewget.c:798-826 | the three tests for a blank line, in place |
| HttpSplit.GetResponse | package/ewget/src/libewget.c:765-949 | the reading loop in place, with nothing lost |
| Url.DynamicReplace | package/ewget/src/libewget.c:1207-1244 | replaces every occurrence from left to right, in a buffer of exactly the right size |
| Url.ReplaceTokens | package/ewget/src/libewget.c:1226-1240 | on a text of tokens that are the pattern or clear of it, replacement works token by token |
| Url.EscapeAtOnce | package/ddns-gargoyle/src/ddns_updater.c:1687-1707 | escaping one character of the list after the other is escaping every character by itself |
| Url.ReqEscape | package/ddns-gargoyle/src/ddns_updater.c:1687-1707 | http_req_escape in place |
| Url.HttpUnescape | package/ewget/src/libewget.c:585-622 | http_unescape in place, for codes of one or two digits of either case, the code of NUL standing for nothing |
| Url.UnescapeEscape | package/ewget/src/libewget.c:585-622 | unescaping undoes escaping, for every text |
| Url.PercentIsHex | package/ddns-gargoyle/src/ddns_updater.c:1690-1699 | a code is a percent sign and the two digits of the character's number, the higher one first |
| Url.NoDelimiterLeft | package/ddns-gargoyle/src/ddns_updater.c:1690-1704 | no character that structures a URL or a query, of : / ? # [ ] @ $ & ; =, is left in an escaped text |
| Url.SomeReservedLeft | package/ddns-gargoyle/src/ddns_updater.c:1690-1704 | the other reserved characters of RFC 3986, ! ' ( ) * + and the comma, are left as they are |
| Template.SubstituteAtOnce | package/ddns-gargoyle/src/ddns_updater.c:1642-1685 | filling variables in one after the other, in any order, is filling them in all at once |
| Template.LineSubstitution | package/ddns-gargoyle/src/ddns_updater.c:1642-1685 | do_line_substitution in place |
| Template.ParseUrl | package/ewget/src/libewget.c:369-436 | parse_url in place, as far as user and password go |
| Template.CredentialsSurvive | package/ewget/src/libewget.c:402-436 | whatever user and password are made of, filled into a login template with any other variables, parse_url recovers both |
| Sha256.Context.constructor | package/gargoyle/src/sha256.c:104-116 | a fresh context stands for the empty message |
| Sha256.Context.ProcessBlock | package/gargoyle/src/sha256.c:121-181 | the state becomes its compression with the block (section 6.2.2 of FIPS 180-4) |
| Sha256.Context.Data | package/gargoyle/src/sha256.c:182-216 | the context is the fold over the full blocks of everything passed in so far, with the remainder buffered |
| Sha256.Context.Finalize | package/gargoyle/src/sha256.c:229-275 | the hash of the message padded as in section 5.1.1 of FIPS 180-4, if there is somewhere to put it; in either case nothing is left in the context |
| Sha256.HashPieces | package/gargoyle/src/sha256.c:278-288 | however a message is cut into pieces, the hash is Sha256 of the whole (for fewer than 2^61 bytes that of FIPS 180-4, and beyond with the length modulo 2^64 bits) |
| Sha256.PadIsPadding | package/gargoyle/src/sha256.c:236-260 | the padding is one block, or two from 56 buffered bytes on |
| Sha256.WriteLong | package/gargoyle/src/sha256.c:221-227 | four bytes, most significant first |
| Sha256Words.ChChooses | package/gargoyle/src/sha256.c:59-59 | each bit of CH is that of y where x has a one, and that of z otherwise |
| Sha256Words.MajIsMajority | package/gargoyle/src/sha256.c:60-60 | each bit of MAJ goes with at least two of the three |
| Sha256Words.SigmasRotate | package/gargoyle/src/sha256.c:61-64 | SUM0, SUM1, RHO0 and RHO1 are exclusive ors of rotations, and of one shift, by the amounts of the standard |
| Sha256Words.RotatedBits | package/gargoyle/src/sha256.c:50-50 | a rotation by n moves bit i + n to place i, going round |
| Sha256Example.AbcIsHashed | package/gargoyle/src/sha256.c:121-288 | the hash of "abc" is the one published with the standard |
| Sha256Constants.RoundConstants | package/gargoyle/src/sha256.c:69-86 | each of the 64 constants is the first 32 bits of the fractional part of the cube root of a prime, in their order |
| Sha256Constants.FirstPrimes | package/gargoyle/src/sha256.c:69-86 | and these are all the primes below 312 |
| Sha256Constants.InitialHash | package/gargoyle/src/sha256.c:104-116 | the words of the initial hash value are those of the square roots of the first eight |

## Left out

- Options.ParseOptions: options on which the source loops for ever; the result for all others is an input of a segment in the runs.
- uIP: reassembly, IPv6, urgent data and the urgent pointer; statistics and logging.
- uIP: demultiplexing of UDP datagrams; bounds on the round-trip estimator, whose fields wrap around.
- Uip.Uip.Found: the urgent-pointer skip for segments with URG is not modelled, because the source advances by an unchecked 16-bit pointer and may show the application bytes outside the buffer; segments with URG are processed here as if the pointer were zero, and the runs of Receiving have none.
- Packets.UpperLayerChksum: a length field below 20, for which the source reads far past its buffer.
- Packets.Receive: TCP packets whose length field is below 40, for which the source takes header fields from bytes behind the packet; for all others, shorter ones too, the result is stated.
- Protosockets: `psock_generator_send`, `psock_readbuf`, and data that arrives while `psock_send` waits.
- Receiving: what happens to data in the closing states, where the source counts it and gives it to nobody.
- ARP: packets in and out of `uip_arp_arpin`, and ages once `arptime` has wrapped around.
- Flasher: the dialogue with RedBoot, packet capture, the user interface; file names in TFTP requests beyond which of three files is meant.
- Quotas: the nat redirect chain, the three chains that jump into the quota chains, the two rules that copy QoS marks into connection marks at the end of the combined chain, the time match, address parsing and CIDR ranges, backups, crontab lines.
- Bitmask.InvertBitmask: `strtoul` is an input, and only the 32-bit form the program uses is modelled.
- Dynamic DNS: the caches of local and remote addresses (both addresses are inputs of a turn), how a real update is made, the file of last update times, signals and message queues as system calls; priorities are of 32 bits.
- DdnsClient.Conversation: what the client prints.
- HttpSplit.GetResponse: redirects, the content type, and headers with a NUL byte, where `strdup` cuts the header short.
- Url.HttpUnescape: a percent sign without two characters after it, or with a first one that is no hexadecimal digit, for which the source mostly reads past the text or uses a number it has not read (`sscanf` accepts a sign or a blank before one digit); and the code 0x.
- Template.ParseUrl: host name, port and path.
- gpkg, the session validator, the web pages, the older iptables variant of the quota compiler.
