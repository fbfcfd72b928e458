# cTCP and router model

A Dafny model of the networking programs under `networks/`: the cTCP transport (a sliding-window protocol carried inside
TCP datagrams), the router's SHA-1, its longest-prefix match and its ARP request queue.

`dafny verify dfyconfig.toml` checks everything.

| module | what it holds |
|---|---|
| `Bytes`, `Spacing` | bytes, words, host byte orders; spaced times |
| `Checksum` | `cksum`, `flipbit`, and `checksum()` on a segment's bytes |
| `Wire`, `WireFields` | segments as values, their bytes, the two translations to and from datagrams; each format field by field |
| `LinkedLists` | the doubly linked list, on the heap |
| `Protocol` | one endpoint as a value; each event handler of `ctcp.c` as a function |
| `ProtocolInvariant` | what every handler keeps, for one endpoint |
| `Network` | two endpoints and a bag of copies in flight; what every step keeps |
| `Runs` | safety and delivery over whole runs |
| `Crashes`, `Witnesses` | when an out-of-order segment stops an endpoint; runs that reach the failing side of each theorem |
| `Effects` | what each event sends, frees and accepts, spelled out against the state before it |
| `Retry` | checksums of first transmissions and of retransmissions; bounded retry |
| `OutputQueue`, `Segments`, `Ctcp` | the objects of the program: chunk queue, segments, windows, connection state; their methods are proved to do what the functions of `Protocol` and `Wire` say |
| `Sha1Standard`, `Sha1Example`, `Sha1` | FIPS PUB 180-1 as a definition; its worked example of appendix A; the streaming context of `sha1.c` |
| `Routing` | `longestprefixmatch` |
| `ArpRequests`, `ArpQueue` | the ARP request queue as a value and over runs; the linked list itself |

## How the pieces fit

The classes of `Ctcp` update windows, lists and segments in place, as `ctcp.c` does. Each of their methods ends in a state
whose abstract value, and with a log of segments handed to `conn_send`, that a function of `Protocol` computes from the
state before. The functions say what happens; the lemmas of `Effects` say it again from outside, and those of
`ProtocolInvariant`, `Network`, `Runs` and `Retry` say what it is good for. A step of `Network` delivers a copy through both translations of `Wire`, so the runs include re-encoding
between hosts of either byte order.

A copy in flight may be lost, duplicated, delayed and reordered, and `conn_send` may flip any one bit of it behind the
flags. The clock is one value per event, never moves back, and never drives an event by itself. `conn_bufspace`'s answer,
the outcome of `write`, what `conn_input` returns and what `malloc` leaves in the two padding bytes of a segment are
inputs.

## Results worth knowing

* The bytes given to the application are exactly the first `ackno - 1` bytes the peer read **if and only if** every
  accepted payload found room for all of it and is what the peer read (`Runs.ExactDelivery`). Without room `ctcp_output`
  drops the tail of a segment that has been acknowledged (`Witnesses.NoRoomLoses`).
* `ctcp_retrans` recomputes the checksum over a field that is not zero. A retransmitted copy passes the receiver's check
  **if and only if** the field held `0xffff` before (`Retry.RetransmissionPassesIff`). The usual first retransmission is
  thus rejected, and as long as the acknowledgement number stands still the second is accepted
  (`Wire.RestampAlternates`).
* One flipped bit never goes unnoticed in a copy that passes. In a retransmission a flipped payload bit goes unnoticed **if
  and only if** the checksum field it was stamped over held that bit's weight in its 16-bit word, for a clear bit, or
  `0xffff` less the weight, for a set one (`Retry.DamagedRetransmissionPassesIff`; `Wire.CorruptionPassesIff` for any copy).
  Then the application is given bytes nobody read (`Witnesses.SilentDamageIsDelivered`). Without such damage, room alone
  decides (`Runs.DeliveryWithoutSilentDamage`).
* `ctcp_receive` dereferences null **if and only if** a segment that passes the check carries a payload from beyond `ackno`
  that fits the window: the receive list is always empty then (`Crashes.ReceiveCrashesIff`, `Crashes.RunCrashesIff` over
  runs). Two reads and a reordering are enough (`Witnesses.OvertakingCrashes`); a sender with at most one segment
  outstanding is safe (`Crashes.OneOutstandingIsSafe`).
* Where the comments and the code disagree, the model follows the code. `ctcp.h` asks for no acknowledgement without
  buffer space; the code acknowledges all the same. `ctcp_README` describes a receive list of segments held back for
  output; the code never holds one across events. The FIN-ACK test `TH_ACK & TH_FIN` is zero, so a segment counts as a
  FIN-ACK when its flags are all zero, which on a little-endian host is what becomes of `htonl(0x11)` in a byte-wide field.
  `sr_arpcache.h` tells the sweep to save the next request before destroying one; the code reads it afterwards from freed
  memory. Here the model does what the header says.

## Model

| member | source | states |
|---|---|---|
| Checksum.ChecksumUnique | networks/tcp/ctcp_utils.c:3-17 | the checksum is the only number in 1..65535 that makes the words of the data sum to zero modulo 65535 (RFC 1071), so it is never 0 |
| Bytes.NetworkOrder16 | networks/tcp/ctcp_utils.c:15-16 | for any two bytes in memory: what either kind of host sees in them, what they mean in network order, and that htons and ntohs lead from one to the other |
| Bytes.Wraps | networks/tcp/ctcp_sys_internal.c:368-394 | conversion to an unsigned type moves a number by whole turns of its range |
| Bytes.SignedWraps | networks/tcp/ctcp.c:468 | conversion to int keeps the lower half and moves the upper half down by one turn |
| Bytes.NetworkOrder32 | networks/tcp/ctcp.c:227-231 | likewise for four bytes, htonl and ntohl |
| Checksum.ComputeCksum | networks/tcp/ctcp_utils.c:3-17 | for every length below 2^16 and either byte order, the word returned encodes that number; no 32-bit addition overflows and the folding ends |
| Checksum.WordSumUpdate | networks/tcp/ctcp_sys_internal.h:246-250 | writing one byte moves the word sum by its difference, weighed 256 or 1 by its place |
| Checksum.VerifyIff | networks/tcp/ctcp.c:339-344 | a segment verifies iff its field is not zero and all its words, field included, sum to zero modulo 65535 |
| Checksum.RefreshedVerifiesIff | networks/tcp/ctcp.c:324-326 | recomputing the field over what it holds gives bytes that verify iff it held 0x0000 or 0xffff |
| Checksum.RefreshedTwiceVerifies | networks/tcp/ctcp.c:324-326 | from bytes that verify, one recomputation leaves 0xffff and the second verifies again |
| Checksum.FlipBitInPlace | networks/tcp/ctcp_sys_internal.h:246-250 | changes one bit of one byte and nothing else in the buffer |
| Checksum.FlipDetected | networks/tcp/ctcp_sys_internal.h:246-250 | bytes that verify no longer do after any one bit is flipped, whatever the length and wherever the bit |
| Checksum.FlipVerifiesIff | networks/tcp/ctcp_sys_internal.c:856-872 | after any flipped bit any bytes verify iff the field is not zero and the word sum, moved by the bit's weight up or down, is zero modulo 65535 |
| Checksum.RefreshedFlipVerifiesIff | networks/tcp/ctcp.c:324-326 | for bytes whose field was recomputed over what it held: iff the field is not zero and what the bit moves is the old field modulo 65535 |
| Checksum.RefreshedPayloadFlipVerifiesIff | networks/tcp/ctcp.c:324-326 | and behind the field: iff the old field was the bit's weight, for a clear bit, or 0xffff less it, for a set one |
| Wire.DecodeEncode | networks/tcp/ctcp_sys_internal.c:326-357 | reading a segment's bytes back gives the segment, in either byte order |
| Wire.EncodeDecode | networks/tcp/ctcp_sys_internal.c:326-357 | bytes whose length field is right are what the segment they decode to encodes to |
| WireFields.EncodeFields | networks/tcp/ctcp.c:219-231 | seqno, ackno, length, window and checksum lie at bytes 0, 4, 8, 16 and 18 in network order, the flags at 12 as the host keeps a word, the payload from 20 on |
| Wire.StampPassesIff | networks/tcp/ctcp.c:297-300 | a stamped copy passes the receiver's check iff the field held zero, which means never sent, or 0xffff |
| Wire.RestampAlternates | networks/tcp/ctcp.c:314-333 | after a copy that passes, restamping leaves 0xffff, which fails unless it was there before, and restamping again passes |
| Wire.CorruptionFields | networks/tcp/ctcp_sys_internal.c:856-872 | a bit flipped at or after byte 16 leaves numbers, flags and length alone; before byte 20 it leaves the payload, from there on the checksum |
| Wire.CorruptionPassesIff | networks/tcp/ctcp_sys_internal.c:856-872 | exactly when a copy passes after such a flip, whether or not it passed before: a matter of its words and of the bit |
| Wire.CorruptionDetected | networks/tcp/ctcp_sys_internal.c:856-872 | never, if it passed before |
| Wire.StampedCorruptionPassesIff | networks/tcp/ctcp.c:314-333 | a flipped payload bit in a copy stamped over an old checksum goes unnoticed iff that was the bit's weight, for a clear bit, or 0xffff less it, for a set one |
| Wire.RoundTrip | networks/tcp/ctcp_sys_internal.c:326-410 | out through one host and in through another, of any byte orders: payload, window and low flag bits survive; the relative numbers survive iff the ends agree on the initial ones; the result passes the check iff the original did |
| WireFields.CarriedFlags | networks/tcp/ctcp_sys_internal.c:388-392 | what arrives has the low eight flag bits of the sender, bit 4 set besides iff ACK is added, and no others; FIN survives, ACK is seen iff it was set or is added |
| WireFields.DatagramFields | networks/tcp/ctcp_sys_internal.c:368-394 | the datagram goes from our address and port to the peer's; its numbers are the relative ones moved by the initial ones, modulo 2^32; length, window and payload are the segment's |
| WireFields.DatagramSum | networks/tcp/ctcp_sys_internal.c:396-409 | the words of pseudo-header, TCP header and payload, each field named, add up to zero modulo 65535 with a nonzero checksum iff the segment passes, so any TCP accepts what cTCP accepts |
| Wire.ErrorCarried | networks/tcp/ctcp_sys_internal.c:345-354 | between hosts of one byte order the 16-bit difference between the stored checksum and the right one comes out of both translations unchanged; between any hosts it comes out zero iff it went in zero |
| Segments.ConvertToDatagram | networks/tcp/ctcp_sys_internal.c:368-410 | builds the datagram of the value-level translation, and gives the segment back with its checksum field restored |
| Segments.ConvertToCtcp | networks/tcp/ctcp_sys_internal.c:326-357 | builds the segment of the value-level translation; of the datagram, only the checksum field has been cleared |
| Segments.DatagramBuffer.TcpCksum | networks/tcp/ctcp_sys_internal.h:191-206 | the checksum of pseudo-header, header and data, as the host's word |
| Segments.Segment.ChecksumOk | networks/tcp/ctcp.c:339-344 | true iff the segment as received passes; it leaves the field zero |
| LinkedLists.LinkedList.Add | networks/tcp/ctcp_linked_list.c:33-53 | appends to the sequence the list stands for; next and prev stay mutually inverse, head, tail and length right |
| LinkedLists.LinkedList.AddFront | networks/tcp/ctcp_linked_list.c:55-75 | prepends to it, likewise |
| LinkedLists.LinkedList.AddAfter | networks/tcp/ctcp_linked_list.c:77-95 | inserts behind the given node, likewise |
| LinkedLists.LinkedList.Remove | networks/tcp/ctcp_linked_list.c:97-118 | takes exactly the given node out, likewise, and returns its object |
| LinkedLists.LinkedList.Find | networks/tcp/ctcp_linked_list.c:120-132 | the first node that holds the object, null iff none does |
| ProtocolInvariant.QueueHoldsTheRest | networks/tcp/ctcp.c:174-189 | the send queue's payloads are the input bytes from the first unacknowledged one on, and `sw->size` counts them |
| ProtocolInvariant.FlushSent | networks/tcp/ctcp.c:283-309 | with no zero checksum field in the queue, ctcp_send transmits nothing and changes no segment |
| ProtocolInvariant.FlushNew | networks/tcp/ctcp.c:283-309 | with one unsent segment at the end, ctcp_send transmits that one alone |
| ProtocolInvariant.SendNewIsOneTransmission | networks/tcp/ctcp.c:219-309 | queueing data or a FIN and calling ctcp_send is one transmission of that segment, after which nothing is unsent |
| ProtocolInvariant.ContiguousFrom | networks/tcp/ctcp.c:233-247 | segments that follow on from each other partition their range: each ends where the next starts, zero-length ones included |
| ProtocolInvariant.AckRemovesPrefix | networks/tcp/ctcp.c:467-488 | scanning the whole queue removes exactly a prefix, every segment that ends at or below the acknowledgement, and counts its bytes |
| ProtocolInvariant.AcknowledgeInv | networks/tcp/ctcp.c:459-498 | an acknowledgement keeps the sender's invariant, transmits nothing, and moves the first unacknowledged byte no further than it says |
| Effects.AcknowledgeExactly | networks/tcp/ctcp.c:459-498 | an acknowledgement frees exactly the segments that end at or below it, a prefix; the rest stays in order and all of it ends above; size is what the rest holds; the timer stops iff nothing is left and starts again otherwise; one for all that was sent empties the queue |
| Effects.AcknowledgementFrees | networks/tcp/ctcp.c:459-498 | in every reachable state an acknowledgement that passes and is up to date moves the first unacknowledged byte to the peer's ackno, and stops the timer if that is all |
| Effects.PayloadAnswered | networks/tcp/ctcp.c:385-420 | a payload that passes is answered by exactly one bare ACK of all accepted so far if it is a duplicate or the next that fits, by nothing otherwise; the ackno moves iff it is the next that fits |
| Effects.DeliveredThenFreed | networks/tcp/ctcp.c:385-498 | in every reachable state such a payload, arriving, and its acknowledgement, arriving next, free at the sender everything accepted by then, that payload included |
| Effects.ControlAnswered | networks/tcp/ctcp.c:366-383 | a FIN is answered by one FIN-ACK, and by one FIN unless a FIN-ACK came in; other control segments by nothing; the teardown timer starts iff the flags are all zero |
| Effects.FinAckArrives | networks/tcp/ctcp.c:265-272 | a FIN-ACK arrives with no flags from a little-endian host and as FIN with ACK from a big-endian one, ACK added if asked |
| Effects.FailingIgnored | networks/tcp/ctcp.c:349-364 | a segment that fails the check changes nothing |
| Effects.ReadExactly | networks/tcp/ctcp.c:172-204 | with both windows open reading transmits exactly one segment, the data or the FIN, within the peer's window, what is left of our own, and 1440 bytes, advertising what was left before; otherwise it does nothing |
| Effects.ReadAsks | networks/tcp/ctcp.c:174-189 | conn_input is asked for as much as both windows and 1440 bytes allow, and no less |
| Effects.InitState | networks/tcp/ctcp.c:100-145 | a connection starts with nothing sent, accepted or running, both windows as configured, and credit for one full segment |
| Effects.TimerExactly | networks/tcp/ctcp.c:548-578 | destruction twice a timeout after a FIN-ACK or at the sixth timeout in a row, the head sent again with the current ackno at the first five, nothing at any other time |
| Effects.AcceptedOutput | networks/tcp/ctcp.c:525-539 | of an accepted payload the application gets as much as there is room for, nothing once output has ended or if the write fails; no room marks the end of file, a failing write the error |
| Effects.NoRoomCloses | networks/tcp/ctcp.c:528-539 | a payload accepted without any room marks the end of file and is acknowledged |
| Effects.ClosedForGood | networks/tcp/ctcp_sys_internal.c:912-928 | over every run, after the end of file or an error nothing is given to the application any more |
| ProtocolInvariant.ReadInv | networks/tcp/ctcp.c:172-204 | reading keeps the endpoint's invariant: contiguous segments quoting the input, size within the window, timer running iff the queue is not empty, counter in 0..5 |
| ProtocolInvariant.ReceiveInv | networks/tcp/ctcp.c:349-502 | so does receiving any segment, whether genuine or not |
| ProtocolInvariant.TimerInv | networks/tcp/ctcp.c:548-578 | so does the timer, whose retransmission leaves the queue's bytes and the history of first transmissions alone |
| Network.AcceptLink | networks/tcp/ctcp.c:396-420 | accepting a payload that lies where a transmitted one does keeps sender and receiver in step, damaged or not |
| Network.AcceptExact | networks/tcp/ctcp.c:396-420 | afterwards the application has exactly the acknowledged bytes iff it had them before, there was room, and the payload is what the sender read |
| Network.BoundaryNeverSplits | networks/tcp/ctcp.c:389-401 | the receiver's ackno, an end of some transmitted segment, never falls inside one: each lies wholly below it or starts at or above it |
| Network.NextInv | networks/tcp/ctcp.c:349-502 | every step of two endpoints and the channel, any single flip per copy included, keeps both endpoint invariants, both links between sender and receiver, the place of every copy in flight and the bytes of every undamaged one; nobody unsends, unreads or unaccepts |
| Runs.RunInv | networks/tcp/ctcp.c:172-578 | and so does every run |
| Runs.NothingForgottenEarly | networks/tcp/ctcp.c:459-498 | in every reachable state 1 <= first unacknowledged <= the peer's ackno <= seqno, the queue holds the input from the first unacknowledged byte on, size counts it and fits the window, and the timer runs iff the queue is not empty |
| Runs.InFlightIsTruthful | networks/tcp/ctcp.c:219-278 | in every reachable state every copy in flight, passing or not, acknowledges no more than its sender accepted and lies wholly below its receiver's ackno or at or above it; unless damaged, it quotes its sender's input |
| Runs.RunDelivery | networks/tcp/ctcp.c:507-542 | after any run the application has exactly the acknowledged bytes iff it had before and every accepted payload found room and was what the peer read |
| Runs.ExactDelivery | networks/tcp/ctcp.c:385-420 | in every run the bytes output are exactly the first ackno - 1 bytes the peer read iff every accepted payload found room and was what the peer read |
| Runs.SilentIff | networks/tcp/ctcp_sys_internal.c:856-872 | exactly when a flipped payload bit turns a failing copy in flight into a passing one |
| Runs.DeliveryWithoutSilentDamage | networks/tcp/ctcp.c:385-420 | in a run without such a flip the bytes output are exact iff every accepted payload found room, and whatever passes the check in flight is genuine |
| Crashes.ReceiveCrashesIff | networks/tcp/ctcp.c:422-436 | the handler dereferences null iff the segment passes the check, carries a payload, starts beyond ackno and fits the window |
| Crashes.RunCrashesIff | networks/tcp/ctcp.c:422-436 | over every run a side has crashed iff it had at the start or such a segment reached it |
| Crashes.OvertakingNeedsTwo | networks/tcp/ctcp.c:422-436 | such a segment's sender has at least two segments in its queue |
| Crashes.OneOutstandingIsSafe | networks/tcp/ctcp.c:422-436 | a sender that never has more than one segment outstanding never crashes its receiver, over every run |
| Witnesses.OvertakingCrashes | networks/tcp/ctcp.c:422-436 | for all hosts and windows of two bytes and more: a legal run of two reads with the second copy first crashes the receiver |
| Witnesses.NoRoomLoses | networks/tcp/ctcp.c:528-539 | a legal run in which a byte is acknowledged and never output |
| Witnesses.SilentDamageIsDelivered | networks/tcp/ctcp.c:324-326 | a legal run with room throughout in which the application is given bytes its peer never read |
| Retry.FirstTransmissionsPass | networks/tcp/ctcp.c:283-309 | whatever is sent on reading or on receiving passes the receiver's check |
| Retry.RetransmissionPassesIff | networks/tcp/ctcp.c:314-333 | a retransmission carries the same bytes as the head of the queue and passes the check iff that was last sent with 0xffff |
| Retry.DamagedRetransmissionPassesIff | networks/tcp/ctcp.c:314-333 | one flipped payload bit of a retransmission goes unnoticed iff the head was last sent with the bit's weight, for a clear bit, or 0xffff less it, for a set one, as checksum |
| Retry.RetransmissionCounterexample | networks/tcp/ctcp.c:324-326 | a sender whose first retransmission fails the check, and a bit whose flip makes that copy pass with another payload |
| Retry.BoundedRetry | networks/tcp/ctcp.c:548-576 | over any stretch without a new transmission or an acceptable acknowledgement: the invariant holds at its end, the head stays and only copies of it are resent, at most five times less those counted already, each more than a timeout after the one before; counter and timer account for them; death only after all of them or by teardown |
| Retry.RetriedAtEveryFiring | networks/tcp/ctcp.c:560-574 | in such a stretch with firings more than a timeout apart, every firing retransmits, up to five in all |
| Retry.SixthTimeoutDestroys | networks/tcp/ctcp.h:176-178 | and starting from a transmission, the next firing destroys the connection, sending nothing, iff all five retransmissions of that head have been; before that it sends the head once more |
| Ctcp.CtcpState.Open | networks/tcp/ctcp.c:94-146 | null for a null connection, otherwise a fresh state equal to the initial endpoint, invariant included |
| Ctcp.CtcpState.Read | networks/tcp/ctcp.c:172-204 | the state and the segments sent are those of the value-level read; the invariant is kept |
| Ctcp.CtcpState.MakeQueued | networks/tcp/ctcp.c:219-278 | the data and FIN modes queue one new segment and transmit it, leaving the other list alone |
| Ctcp.CtcpState.MakeDirect | networks/tcp/ctcp.c:249-278 | the ACK and FIN-ACK modes send one checksummed segment and change neither window |
| Ctcp.CtcpState.Send | networks/tcp/ctcp.c:283-309 | the list walk stamps and transmits each unsent segment in order and leaves every other one as it was |
| Ctcp.CtcpState.Retransmit | networks/tcp/ctcp.c:314-333 | stamps and sends the head of the queue alone |
| Ctcp.SendWindow.RemoveAcked | networks/tcp/ctcp.c:475-488 | the removal loop leaves in the list, in order, the segments that are not acknowledged, and takes the bytes of the others off size |
| Ctcp.CtcpState.ReceiveAck | networks/tcp/ctcp.c:459-498 | the value-level acknowledgement, timer and counter included |
| Ctcp.CtcpState.ReceiveData | networks/tcp/ctcp.c:385-455 | the value-level receipt of a payload; the receive list is empty again unless the endpoint crashed |
| Ctcp.CtcpState.Receive | networks/tcp/ctcp.c:349-502 | the state and the segments sent are those of the value-level receive; the invariant is kept |
| Ctcp.CtcpState.OutputSegments | networks/tcp/ctcp.c:507-542 | the one segment held is offered to the connection up to its buffer space and leaves the list whatever was taken |
| Ctcp.CtcpState.Drain | networks/tcp/ctcp_sys_internal.c:624-672 | draining changes nothing of the endpoint but the connection's error mark |
| Ctcp.CtcpState.Timer | networks/tcp/ctcp.c:548-578 | the state and the segments sent are those of the value-level timer; the invariant is kept |
| OutputQueue.Conn.BufSpace | networks/tcp/ctcp_sys_internal.c:608-617 | 8192 less the unwritten bytes of the queue, never below 0 |
| OutputQueue.Conn.ConnOutput | networks/tcp/ctcp_sys_internal.c:912-980 | takes the whole buffer or none of it and says which; bytes written so far followed by the unwritten ones of the queue remain the bytes accepted, in order; the tail pointer remains at the null end |
| OutputQueue.Conn.Drain | networks/tcp/ctcp_sys_internal.c:624-662 | writes until the queue is empty or write falls short, without accepting more: the same conservation, the same tail; an error is marked iff write failed or everything after end of file is written |
| Sha1Standard.PaddedShortTail | networks/router/sha1.c:349-370 | with at most 55 bytes left over the padded message ends in one block |
| Sha1Standard.PaddedLongTail | networks/router/sha1.c:334-348 | with more, in two, the length in a block of its own |
| Sha1Standard.BlocksConcat | networks/router/sha1.c:207-301 | processing blocks in two stretches is processing them in one |
| Sha1Standard.ChooseBits | networks/router/sha1.c:245-246 | in every bit position the first round function is C where B is one and D where B is zero |
| Sha1Standard.ParityBits | networks/router/sha1.c:257 | in every bit position the second and fourth is D where B and C agree and its complement where they differ |
| Sha1Standard.MajorityBits | networks/router/sha1.c:268-269 | in every bit position any two operands that agree decide the third |
| Sha1Standard.Sum5IsModular | networks/router/sha1.c:245-247 | the sum a round forms is that of the five numbers modulo 2^32 |
| Sha1Standard.AddIsModular | networks/router/sha1.c:288-297 | so is the one that adds the registers in |
| Sha1Standard.OctetsNumber | networks/router/sha1.c:361-368 | the four octets of a word are its digits to base 256, most significant first |
| Sha1Standard.LengthNumber | networks/router/sha1.c:361-368 | the last eight octets are the length in bits as one 64-bit number, high word first |
| Sha1Example.DigestOfAbc | networks/router/sha1.c:207-371 | the definition gives the digest that appendix A of FIPS PUB 180-1 works out for abc, through every word and round |
| Sha1.Sha1Context.Reset | networks/router/sha1.c:71-85 | whatever the context held, it has now absorbed nothing |
| Sha1.Sha1Context.ProcessMessageBlock | networks/router/sha1.c:207-301 | the digest becomes the standard's compression of it with the block |
| Sha1.Sha1Context.CountOneMore | networks/router/sha1.c:163-176 | the two length words, as one number, keep being 8 times the bytes absorbed, and both are zero exactly when 2^64 bits are reached |
| Sha1.Sha1Context.Input | networks/router/sha1.c:143-185 | absorbs the message, or as much of it as stays below 2^64 bits; a call after the result or after corruption corrupts; block index is bytes modulo 64 and all accesses are in range |
| Sha1.Sha1Context.PadMessage | networks/router/sha1.c:326-371 | in both branches the digest becomes that of the whole message absorbed |
| Sha1.Sha1Context.Result | networks/router/sha1.c:104-119 | fails iff corrupted, otherwise the digest of the bytes absorbed, and again the same on a second call |
| Sha1.Hash | networks/router/sha1.c:71-185 | however a message is cut into input calls, the result is the FIPS PUB 180-1 digest of the whole, and it fails iff the whole has 2^64 bits or more |
| Routing.MaskOrder | networks/router/sr_router.c:77 | raw network-order netmasks compare as their prefix lengths do, on hosts of either byte order |
| Routing.MaskedEqualIff | networks/router/sr_router.c:75 | raw words agree under a raw mask iff the addresses agree in their leading bits |
| Routing.LongestPrefixMatch | networks/router/sr_router.c:69-85 | for any masks: the first of the matching entries with the largest mask word, null iff none matches; for every table of routes, on hosts of either byte order: the first of the matching routes with the longest prefix |
| Routing.ChosenIsBest | networks/router/sr_router.c:69-85 | for contiguous masks that entry is the first with the longest matching prefix, and conversely |
| Routing.BestUnique | networks/router/sr_router.c:69-85 | there is one such entry at most |
| ArpRequests.RunInv | networks/router/sr_arpcache.c:70-246 | over every run of queueing, replies and sweeps: one request for an address, asked for at most five times |
| ArpRequests.WhileItLasts | networks/router/sr_arpcache.c:70-115 | as long as a request waits, all that is done for its address is ask, at least a second apart, and times_sent, sent and its packets account for all of it |
| ArpRequests.SweepDecides | networks/router/sr_arpcache.c:76-108 | what a sweep does for a request that has waited through any events: nothing within a second of the last ask; after five asks it answers every waiting packet host unreachable, after fewer it forwards every one if the address is cached, in order, and asks once more if not; the request goes iff its packets do |
| ArpRequests.UnreachableOnlyAfterFiveAsks | networks/router/sr_arpcache.c:76-87 | over every run from an empty queue, host unreachable is answered for an address only right after five asks for it in a row |
| ArpRequests.OfferedOnce | networks/router/sr_arpcache.c:182-192 | queueing keeps exactly the packet it brings, if it brings one with anything in it |
| ArpRequests.AskedFiveTimes | networks/router/sr_arpcache.c:76-108 | when an unanswered request goes, its address was asked for exactly five times, at least a second apart, and in that sweep, a second later at least, every packet waiting is answered host unreachable once |
| ArpRequests.GoneAtSixthSweep | networks/router/sr_arpcache.c:70-115 | with sweeps a second apart, an unanswered request outlives five sweeps and goes in the sixth |
| ArpRequests.EveryPacketOnce | networks/router/sr_arpcache.c:158-203 | over every run, each packet queued for an address still waits, or was forwarded or answered, exactly once |
| ArpQueue.Cache.QueueReq | networks/router/sr_arpcache.c:158-197 | adds the packet to the request for the address, made new at the front if there was none, and leaves all others as they were |
| ArpQueue.Cache.Insert | networks/router/sr_arpcache.c:203-226 | unlinks and returns the request for the address, untouched, or null and no change if there is none |
| ArpQueue.Cache.Destroy | networks/router/sr_arpcache.c:246-282 | unlinks the given request wherever it is; one that is not on the list, and null, change nothing |
| ArpQueue.Cache.SweepReqs | networks/router/sr_arpcache.c:70-115 | the list and the actions after walking it while requests are destroyed are those of treating each request of the old list by itself, in order |

## Left out

- Sequence and acknowledgement numbers at or above 2^31: `int` arithmetic overflows there, which C does not define. The handlers that would cross it are not taken.
- Ctcp.CtcpState.Receive: does not take a segment whose length field disagrees with the bytes that arrived (padding, truncation).
- Ctcp.CtcpState.OutputSegments: is about lists of at most one segment, as no longer one is reachable.
- Segments.ConvertToCtcp: does not take a datagram whose IP length is below the headers or promises more bytes than arrived; the code would read past its end.
- Segments.DatagramBuffer.TcpCksum: takes the pseudo-header buffer as one sequence; filling it field by field is not modelled.
- Ctcp.CtcpState.Timer: is about one connection in the process; with several, `ctcp_timer` destroys the head of the state list, whichever connection it looks at.
- Buffering and reassembly of out-of-order data, including the loop that advances `ackno` over held segments: in reachable states the first branch finds nothing after the segment it has just added, and the second dereferences null. The model stops the endpoint there.
- FIN, FIN-ACK and teardown as a claim that closing is right: FIN takes no sequence number and is not checked against the data received. They are modelled as steps; a FIN is a zero-length member of the queue.
- Flow control by the receiver, and liveness: the advertised window is that of the send side and there is no window probe.
- Several flipped bits in one copy: `conn_send` flips one at most.
- Several readings of the clock within one cTCP event: one per event stands for them.
- Calls of the list functions with a null list, `ll_destroy`, and freeing in general: lists and segments are objects that stay.
- IP and TCP header fields that neither translation reads or fills from a segment; checksums in the IP header.
- Clearing of `send_buf` beyond its length, and logging.
- Sockets, poll loop, processes, pipes, the handshake, resets, configuration.
- `conn_output` to the standard input of a child program rather than to standard output, and POLLOUT bookkeeping: the same `write`.
- `networks/router/sr_utils.c` has a copy of `cksum`; one model serves.
- ArpQueue.Cache.Insert: is about the request list alone; left out are the entries of the ARP table with their hardware addresses, the table being full, and expiry. A sweep is told which addresses are cached.
- ArpRequests.EveryPacketOnce: includes replies as `sr_arpcache.h` lays them down, with `sr_arpcache_insert` and a caller that forwards the packets. The router never calls it; its own `sr_arpcacheinsert` fills the cache alone and the next sweep forwards, which is the run without such replies.
- ArpQueue.Cache.SweepReqs: saves the next request before one is destroyed, as `sr_arpcache.h` says; the code reads it from freed memory.
- Locking of the ARP cache: each operation is one step. Packets that the sweep hands on do not come back to the queue within the sweep.
- An `Ask` is a call of `sr_arp_request`, which sends nothing when no route matches.
- The interface name's truncation in a queued packet, ARP and ICMP packet building, routing-table loading, and everything that talks to the simulator.
- Other drafts of the transport in `networks/tcp`.
