# ARABA node: a verified model

ARABA is a mesh node. A message is padded, encrypted with a block cipher in CBC mode under a key that
belongs to the pair of nodes, split into packets, sent or kept in a file until the other node is heard
again, reassembled, decrypted and acknowledged. Around that path the node keeps a routing table, relays
packets with a hop limit, and retries what is not acknowledged. This project states what each of these
parts computes and proves how they work together over whole runs of one node and of a network of nodes.
`dafny verify dfyconfig.toml` checks it.

## How the model is built

Every part has a specification in functions on values, and the code that updates things in place is a
method or a class proved equal to it: blocks and buffers are arrays written by loops, the fragment table,
the routing table, the acknowledgement table and the queue file are fields of objects, and the node is an
object that owns them. The theorems are then about the specification.

| files | what they model |
|---|---|
| `Bytes`, `Packets`, `MacText` | machine integers and their storage, packets, addresses and their text |
| `Gf256`, `AesTables`, `SboxLaw`, `MixMatrix` | the field, the S-boxes and what defines them, the column matrices |
| `AesBlock`, `BlockLaws` | the block function and its inverse; the block function byte by byte |
| `KeySchedule`, `Aes256`, `Cbc`, `PairKeys` | key expansion, the cipher object over buffers, chaining, pair keys |
| `Envelope` | padding, the IV made of the clock, sealing a message under an IV and opening it |
| `Fragments`, `Reassembly` | splitting, the table of partial messages, and runs of it |
| `RueStore` | the queue file, byte by byte, and the list it stands for |
| `Routing`, `Adverts` | the routing table, adverts packed and unpacked |
| `Acks` | pending acknowledgements and the retry sweep |
| `NodeSpec`, `Node` | the state of a node and every step of it; the node object |
| `Delivery`, `StoreForward`, `NodeRoutes`, `NodeAcks` | runs of a node: end-to-end delivery, store and forward, routes, retries |
| `SharedId` | two messages that meet under one id |
| `Exchange` | what a node answers: delivery, acknowledgement, relaying, adverts |
| `Network`, `Flood` | runs of a network: soundness of routes; the bound on forwarding |

Time, IVs, the base key and received packets are parameters. A clock is read once in each step of the node.
The byte order of stored integers is little-endian.

## Main results

- **Delivery.** `Delivery.DeliveryIsCompletion`: over every run of a receiver that starts with nothing under the
  id of a message, whatever else it receives, sends or evicts, a fragment of that message makes it deliver exactly
  the plaintext when it completes the indices received since the last completion or eviction, and nothing
  otherwise. `Delivery.EndToEnd` and `Delivery.AnyOrderDelivers`: as long as no eviction comes too late after a
  fragment, that is the moment the last index arrives, and every run that up to some moment has brought all the
  fragments, in any order and repeated, has such a moment. `Delivery.SendOnAir` says which packets `send` puts
  on the air, and `Delivery.SentInAnyOrder` joins the two. `Delivery.DirectDeliveryIff` says exactly which messages
  arrive at all: to a destination in reach, those of 464 to 1007 bytes, and shorter ones whose IV has at most 1 in
  byte 3. Shorter messages carry no fragment header, but the receiver looks for one in the IV; a short message under
  any other IV is taken for a fragment and lost. In terms of the clock that the IV is made of, it arrives in two of
  every 256 units of 4096 ticks (`Delivery.ShortDeliveryByClock`).
- **What a data packet causes** (`Exchange.DataOutcome`): it is delivered and acknowledged, relayed, or nothing, each
  exactly when the code's conditions hold; the acknowledgement, received at the source, removes exactly the sequence
  number of the packet from what is waited for (`Exchange.AckRoundTrip`).
- **Discovery** (`Exchange.DiscoveryExchange`): after a greeting and its answer each node has the other for neighbour,
  and the greeting one has a route of at most two hops to each of the first 73 neighbours of the other.
- **One id, two messages.** Every node numbers its messages from 1 and partial messages are kept by id alone, so
  the first long messages of two senders share an entry. When the four fragments of two such messages arrive once
  each, both are rebuilt exactly when the first two are of the same message (`SharedId.BothSurviveIff`); the order
  A0, B1, B0, A1 of their fragments loses both (`SharedId.InterleavedBothLost`). A delivered
  message frees its id (`Delivery.IdIsFreeAgain`).
- **Store and forward.** `StoreForward.StoreAndForward`: packets stored for a node out of reach come out, when
  it is heard again, in order and unchanged but for the sequence number, whatever else happened to the node and
  its queue in between; `StoreForward.StoredMessageArrives` carries this through to the plaintext for every run of
  the receiver that brings them, and `StoreForward.WholeQueueArrives` for everything drained at that moment, in
  any order.
- **Cipher.** Decryption undoes encryption for every block, in both orders, whatever bytes the schedule holds. Every
  entry of the S-box is the affine map of an inverse in the field (`SboxLaw.SboxIsAffineInverse`); each round is given
  byte by byte (`BlockLaws.MiddleState`), and the block function depends on the first 72 bytes of the schedule and no
  others (`BlockLaws.OnlyFirst72`, `BlockLaws.LastScheduleByte`). The schedule is the one of FIPS 197; CBC over a
  buffer being overwritten round-trips at every length, and an error in one ciphertext block reaches that plaintext
  block and the next and no other.
- **Reassembly** is a set-completion machine over every run (`Reassembly.OutputIsCompletion`), and a message
  longer than its 16-bit length field is never rebuilt (`Reassembly.InOrderRebuildsIff`).
- **The queue file** refines a list over every sequence of operations, and draining removes exactly the entries
  of one destination although each removal compares only destination, time and length.
- **Routes** are sound in every state of every run of a network whose channel loses, repeats and reorders
  packets. In every run of a node its table is the one of the offers made (`NodeRoutes.TableFollowsHistory`), and a
  next hop is found exactly when the earliest of the offers with the fewest hops is at most 30 seconds old
  (`NodeRoutes.NodeFindsBest`). As only a strictly shorter route is ever stored, the route to a neighbour is never
  renewed: from 30 seconds after a node first heard a neighbour it never finds that route again and relays nothing
  to it, however often it still hears from it (`Network.NeighbourRouteExpires`, `Network.NothingRelayedLater`).
- **Forwarding dies out**: one packet with T hops to live causes at most 1 + n + ... + n^(T-1) transmissions
  among n nodes, over arbitrary routes.
- **Retries**: a message not acknowledged is retried by the first three and given up by the fourth of the sweeps
  chosen greedily more than three whole seconds apart, whatever else is sent and acknowledged
  (`Acks.FailedAtFourthSpacedSweep`). So it is given up no earlier than 16 seconds after it was sent, and when
  sweeps come at most a gap apart, for certain three gaps later (`NodeAcks.NodeGivesUpInTime`).

## Where the code and its documentation differ

The model follows the code. The block function is not the one of FIPS 197: round r adds the schedule bytes from
4r on, and the column mix uses the transposed layout of the row shift (src/crypto.cpp:124-128, 164-176). A retry
is logged but nothing is sent again, and it happens after more than three whole seconds, so from the fourth on
(src/araba_node.cpp:328-347). Entries of the queue file hold 512 payload bytes, not the 496 of
docs/ARCHITECTURE.md. Fragments are sent straight to the destination address, not to the next hop of its route
(src/araba_node.cpp:533).

## Model

| member | source | states |
|---|---|---|
| Gf256.Gmul | src/crypto.cpp:54-64 | the shift-and-add loop computes the field product |
| Gf256.MulIsFieldProduct | src/crypto.cpp:54-64 | the product obeys the three laws that determine multiplication in GF(2^8): additive, compatible with multiplication by x, 1 a unit |
| Gf256.MulDistributes | src/crypto.cpp:54-64 | multiplication distributes over XOR on both sides |
| AesTables.InvSboxOfSbox | src/crypto.cpp:9-46 | the second table undoes the first for every byte |
| SboxLaw.SboxIsAffineInverse | src/crypto.cpp:9-27 | every entry is the affine map of section 5.1.1 of FIPS 197 of the inverse of its index in the field |
| SboxLaw.MulIsFlat | src/crypto.cpp:54-64 | the product is the sum of the doublings of one factor at the bits of the other |
| AesTables.SboxOfInvSbox | src/crypto.cpp:9-46 | the first table undoes the second for every byte |
| KeySchedule.RconTable | src/crypto.cpp:49-51 | the round constants are the powers of x |
| Aes256.ScatterAndGather | src/crypto.cpp:92-103 | the aliasing copy leaves word i of the key in row i and the rows before it as they were |
| Aes256.KeyExpansion | src/crypto.cpp:84-122 | whatever the buffer held, it ends up as exactly the AES-256 recurrence of section 5.2 of FIPS 197 |
| KeySchedule.ScheduleStart | src/crypto.cpp:92-104 | the first 32 bytes of the schedule are the key |
| KeySchedule.ScheduleStep | src/crypto.cpp:106-122 | every later byte is the byte 32 places before plus the substituted, rotated or plain byte of the word before, and the round constant where it belongs |
| KeySchedule.ExampleWords | src/crypto.cpp:84-122 | words 8 to 12 of the example in appendix A.3 of FIPS 197 |
| Aes256.Cipher.constructor | src/crypto.cpp:80-82 | a cipher holds the expanded key |
| Aes256.Cipher.AddRoundKey | src/crypto.cpp:124-128 | XORs the sixteen schedule bytes from 4r on into the block, touching nothing else |
| Aes256.Cipher.SubBytes | src/crypto.cpp:130-132 | substitutes the bytes of the block, touching nothing else |
| Aes256.Cipher.InvSubBytes | src/crypto.cpp:134-136 | substitutes back, touching nothing else |
| Aes256.Cipher.ShiftRows | src/crypto.cpp:138-149 | permutes the block by the row shift |
| Aes256.Cipher.InvShiftRows | src/crypto.cpp:151-162 | permutes the block by the inverse row shift |
| AesBlock.ShiftRotatesRows | src/crypto.cpp:138-162 | row r is rotated left by r columns, and back by the inverse |
| Aes256.Cipher.MixColumns | src/crypto.cpp:164-176 | multiplies each column by the matrix of section 5.1.3 of FIPS 197 |
| Aes256.Cipher.InvMixColumns | src/crypto.cpp:178-187 | multiplies each column by the matrix of section 5.3.3 of FIPS 197 |
| MixMatrix.MixColumnInverse | src/crypto.cpp:164-187 | the two matrices are inverse to each other, in both orders |
| Aes256.Cipher.EncryptBlock | src/crypto.cpp:189-200 | the block in the buffer becomes its encryption, the rest of the buffer stays |
| Aes256.Cipher.DecryptBlock | src/crypto.cpp:202-213 | the block in the buffer becomes its decryption, the rest of the buffer stays |
| AesBlock.DecryptOfEncrypt | src/crypto.cpp:124-213 | decryption undoes encryption for every block and any schedule contents |
| AesBlock.EncryptOfDecrypt | src/crypto.cpp:124-213 | encryption undoes decryption for every block and any schedule contents |
| Aes256.Cipher.EncryptCbc | src/crypto.cpp:215-226 | the in-place loop computes CBC encryption of the window, rounded up to whole blocks |
| Aes256.Cipher.DecryptCbc | src/crypto.cpp:228-240 | the loop that overwrites its own chaining input computes CBC decryption of the window |
| BlockLaws.FirstState | src/crypto.cpp:189-191 | before the first round byte i has schedule byte i added |
| BlockLaws.MiddleState | src/crypto.cpp:192-196 | in rounds 1 to 13 each byte is a row of the matrix over four substituted, shifted bytes plus schedule byte 4 * round + its index |
| BlockLaws.LastState | src/crypto.cpp:197-199 | the last round has no column mix and adds schedule bytes 56 to 71 |
| BlockLaws.OnlyFirst72 | src/crypto.cpp:124-128 | encryption and decryption depend on the first 72 schedule bytes only |
| BlockLaws.LastScheduleByte | src/crypto.cpp:124-128 | a change of byte 68 + j changes byte 12 + j of the ciphertext in the same way and no other |
| BlockLaws.FirstScheduleByte | src/crypto.cpp:124-128 | a change of byte j below 4 changes byte j of the decrypted block in the same way and no other |
| Cbc.CbcDecryptOfEncrypt | src/crypto.cpp:215-240 | CBC round-trips at every length |
| Cbc.CbcEncryptOfDecrypt | src/crypto.cpp:215-240 | and in the other order |
| Cbc.CbcEncryptConcat | src/crypto.cpp:215-226 | encrypting a concatenation is encrypting the first part, then the rest with the last ciphertext block for IV |
| Cbc.CbcBlockAt | src/crypto.cpp:228-240 | each plaintext block depends on two ciphertext blocks only |
| Cbc.CbcErrorPropagation | src/crypto.cpp:228-240 | two decryptions that differ in one ciphertext block differ in that plaintext block, in the next exactly as the ciphertexts do, and nowhere else |
| PairKeys.DerivePairKey | src/crypto.cpp:258-282 | the loops compute the derived key in the output buffer |
| PairKeys.PairKeyUndone | src/crypto.cpp:270-281 | each byte undone is the base key's, with the smaller address in bytes 0 to 5 and the larger in bytes 16 to 21 |
| PairKeys.PairKeySymmetric | src/crypto.cpp:258-282 | both nodes of a pair derive the same key |
| PairKeys.PairKeyInjective | src/crypto.cpp:258-282 | for one base key two pairs share a key exactly when they are the same pair |
| MacText.PrintMac | include/packet.hpp:65-72 | the printing loop gives the text of the address |
| MacText.MacCharacters | include/packet.hpp:65-72 | two lower-case hexadecimal digits for each byte, colons between |
| MacText.ParseMac | include/packet.hpp:75-87 | the parsing loop gives the address read by stream extraction, with zeros after malformed input |
| MacText.StringToMacOfMacToString | include/packet.hpp:65-87 | parsing undoes printing for every address |
| MacText.ShortTextPadded | include/packet.hpp:75-87 | text that ends early gives the bytes it holds and zeros |
| MacText.ReadIntLenient | include/packet.hpp:80-85 | spaces and upper-case digits are accepted |
| MacText.ReadIntPrefixed | include/packet.hpp:80-85 | so are a sign and a 0x |
| MacText.ReadIntRefuses | include/packet.hpp:84 | text without a digit is refused |
| MacText.ReadEight | include/packet.hpp:80-84 | values beyond a 32-bit int are refused |
| MacText.MacToStringInjective | src/routing.cpp:11-18 | different addresses have different keys |
| MacText.MacTextOrder | include/packet.hpp:65-72 | text order is byte order |
| Packets.NewPacket | include/packet.hpp:45-54 | a packet made by init and one copy declares exactly the bytes copied |
| Envelope.PadData | src/araba_node.cpp:67-74 | the padded text is in the buffer, and nothing behind it changed |
| Envelope.UnpadData | src/araba_node.cpp:76-84 | the text before the padding is in the buffer; nothing for malformed padding |
| Envelope.PadIs | src/araba_node.cpp:67-74 | the text, then 1 to 16 bytes that hold their number, up to a multiple of 16 |
| Envelope.PaddingRefusedIff | src/araba_node.cpp:76-84 | exactly when unpadding gives nothing |
| Envelope.UnpadOfPad | src/araba_node.cpp:67-84 | unpadding finds exactly what padding added |
| Envelope.GenerateIv | src/crypto.cpp:251-256 | the loop fills the IV with overlapping windows of the clock |
| Envelope.ClockIvOverlaps | src/crypto.cpp:253-255 | neighbouring bytes of an IV share four bits, so not every block is an IV |
| Envelope.EncryptPayload | src/araba_node.cpp:104-119 | the buffer holds IV and ciphertext, or the call fails for want of room |
| Envelope.DecryptPayload | src/araba_node.cpp:121-134 | the buffer holds the opened text; nothing for short, ragged or malformed input |
| Envelope.SealFits | src/araba_node.cpp:104-119 | a message is sealed exactly when it has at most 1007 bytes |
| Envelope.OpenOfSeal | src/araba_node.cpp:104-134 | opening undoes sealing |
| Fragments.HeaderLayout | include/fragment.hpp:14-21 | the six bytes of the packed header |
| Fragments.HeaderRoundTrip | include/fragment.hpp:14-21 | the packed fragment header is read back |
| Fragments.FragmentManager.FragmentMessage | src/fragment.cpp:6-52 | the packets, the sequence counter and the message counter after splitting |
| Fragments.FragmentManager.ReassemblePacket | src/fragment.cpp:54-102 | the new table, whether a message is complete, and the bytes in the output buffer |
| Fragments.FragmentManager.CleanupStale | src/fragment.cpp:104-117 | the erase-while-iterating loop keeps exactly the entries that are not stale |
| Fragments.KeptByTime | src/fragment.cpp:104-117 | an entry is kept while it is less than the limit plus one second old |
| Fragments.NotTaken | src/fragment.cpp:60-65 | packets without a fragment header or of one fragment change nothing |
| Fragments.TooLargeDropped | src/fragment.cpp:79-83 | a complete message that announces more than the buffer holds is dropped |
| Reassembly.SplitIsPieces | src/fragment.cpp:25-51 | splitting gives one well-formed piece for every index |
| Reassembly.GatherAll | src/fragment.cpp:85-99 | all pieces together are the message |
| Reassembly.TableTracksHistory | src/fragment.cpp:54-117 | from any table free of an id, after every run whose fragments of that id are pieces of one message, the table holds for it exactly the pieces received since the last completion or eviction; other packets may be anything |
| Reassembly.OutputIsCompletion | src/fragment.cpp:54-117 | a call on such a fragment returns true exactly when the received indices become complete, and then gives the message |
| Reassembly.DeliveredAtCompletion | src/fragment.cpp:54-117 | in any order, with duplicates, other packets and evictions between, the last missing index brings the message and no earlier one does, unless an eviction came too late after a fragment of it |
| Reassembly.InOrderRebuildsIff | src/fragment.cpp:16-50 | the packets of a fragmented message rebuild it exactly when its length fits 16 bits |
| RueStore.RueQueue.constructor | src/persistence.cpp:6-30 | a missing file is created with an empty header; an existing one is left as it is |
| RueStore.RueQueue.Enqueue | src/persistence.cpp:54-79 | one record appended and the count patched: the list grows by the entry |
| RueStore.RueQueue.GetPending | src/persistence.cpp:81-102 | exactly the entries of the destination, in order |
| RueStore.RueQueue.GetAll | src/persistence.cpp:104-121 | exactly the entries of the file, in order |
| RueStore.RueQueue.RemoveEntry | src/persistence.cpp:123-157 | the file is rewritten without the first match, and untouched when there is none |
| RueStore.EntryLayout | src/persistence.cpp:66-70 | the 528 bytes of a record |
| RueStore.EmptyFileIs | src/persistence.cpp:17-27 | the nine bytes of a fresh file |
| RueStore.RemovesFirstTwin | src/persistence.cpp:133-141 | removal takes the first entry with the destination, time and length, whatever its payload |
| RueStore.DecodeOfEncode | src/persistence.cpp:66-70 | a record is read back |
| RueStore.AppendRefines | src/persistence.cpp:54-79 | appending bytes and patching the count is appending to the list |
| RueStore.FileRefinesList | src/persistence.cpp:10-157 | after every sequence of operations the size, the stored count and the contents are those of the list, even with an incomplete record behind them |
| RueStore.DrainExact | src/araba_node.cpp:212-223 | removing the pending entries one by one leaves exactly the others, in order |
| Routing.RoutingTable.Add | src/routing.cpp:20-34 | only a new destination or a strictly shorter route changes the table |
| Routing.RoutingTable.GetRoute | src/routing.cpp:36-43 | the entry of the destination, if there is one |
| Routing.RoutingTable.NextHop | src/routing.cpp:61-74 | the entry of the destination, if it is not stale |
| Routing.EntryStaysIff | src/routing.cpp:25-33 | an entry stays as it is, with its age, exactly as long as no offer for its destination has fewer hops |
| Routing.TableHoldsBest | src/routing.cpp:20-34 | every entry is the earliest of the offers with the fewest hops, and there is one for every destination offered |
| Routing.BestIsUnique | src/routing.cpp:25-26 | that offer is unique |
| Routing.FoundExactlyWhenFresh | src/routing.cpp:61-74 | under a monotone clock a hop is found exactly when that offer is at most 30 seconds old |
| Adverts.PackRoutes | src/araba_node.cpp:136-151 | the payload holds the count and the records of the neighbours that fit, in set order |
| Adverts.UnpackRoutes | src/araba_node.cpp:153-166 | the table after adding every record as a route through the sender |
| Adverts.SortedInOrder | src/araba_node.cpp:140 | the set is visited in text order |
| Adverts.AddressesInOrder | src/araba_node.cpp:140-143 | the neighbours are packed in increasing order of their addresses |
| Adverts.AdvertLayout | src/araba_node.cpp:136-151 | the count, then an address and one hop for each neighbour |
| Adverts.OffersComplete | src/araba_node.cpp:153-166 | from a truncated advert only the complete records are read |
| Adverts.AdvertRoundTrip | src/araba_node.cpp:136-166 | an advert teaches a 2-hop route to each of the first 73 neighbours in order, and nothing else |
| Acks.AckTable.Track | src/araba_node.cpp:529-547 | the next number is taken and waited for |
| Acks.AckTable.Acknowledge | src/araba_node.cpp:242-252 | the acknowledged number, and no other, is no longer waited for |
| Acks.AckTable.Sweep | src/araba_node.cpp:324-351 | every aged entry is retried or given up once, in key order, and no other is touched |
| Acks.RetriesAreCounted | src/araba_node.cpp:324-351 | over every interleaving the counter is the number of retries since the message was sent, at most 3 |
| Acks.FailedAfterThreeRetries | src/araba_node.cpp:329-347 | a message is given up exactly when it is aged after three retries |
| Acks.SweepSpendsPatience | src/araba_node.cpp:324-351 | a sweep lowers the sum of 4 - retries by one for every aged entry |
| Acks.WaitsForSpacedSweeps | src/araba_node.cpp:324-351 | a message not acknowledged waits until the fourth of the sweeps spaced by more than three whole seconds, counting them and keeping the time of the last, whatever happens to others |
| Acks.FailedAtFourthSpacedSweep | src/araba_node.cpp:324-351 | exactly the fourth of those sweeps reports it failed, exactly the first three retry it |
| Acks.GivenUpInTime | src/araba_node.cpp:328-347 | it is given up no earlier than 16 seconds after it was sent, and with sweeps at most a gap apart for certain three gaps later |
| NodeAcks.NodeGivesUpInTime | src/araba_node.cpp:324-351 | the same in every run of a node |
| NodeAcks.PendingFollowsHistory | src/araba_node.cpp:242-252 | the table of a node is the one of its sends, acknowledgements and sweeps |
| NodeAcks.NodeRetriesBounded | src/araba_node.cpp:324-351 | in every run of a node no message is retried more than three times |
| Node.Node.GetPairCipher | src/araba_node.cpp:86-102 | the cached cipher is the one a fresh derivation would make, for every address |
| Node.Node.DrainFor | src/araba_node.cpp:210-223 | one packet for every queued entry in order, and only the others left in the file |
| Node.Node.AnswerHello | src/araba_node.cpp:225-235 | the advert of the neighbours, to the sender |
| Node.Node.ConcludeText | src/araba_node.cpp:284-317 | delivered and acknowledged at its destination, else passed to the next hop with one hop less, else dropped |
| Node.Node.TakeDataPacket | src/araba_node.cpp:254-319 | fragments are reassembled first, bare packets opened at once |
| Node.Node.ReceivePacket | src/araba_node.cpp:197-320 | the whole state of the node and everything it sends and delivers, for every kind of packet |
| Node.Node.SendMessage | src/araba_node.cpp:490-558 | the whole state of the node and the packets sent or stored |
| Node.Node.Hello | src/araba_node.cpp:186-192 | the broadcast of a round |
| Node.Node.SweepPending | src/araba_node.cpp:324-351 | the sweep changes the pending messages and nothing else of the node |
| Node.Node.DropStale | src/araba_node.cpp:353-357 | the eviction changes the partial messages and nothing else of the node |
| Delivery.PartialsFollowProjection | src/araba_node.cpp:263-273 | the partial messages of a node depend on its fragments and evictions alone |
| Delivery.SentPackets | src/araba_node.cpp:515-526 | the packets of a message of 464 to 1007 bytes are its pieces, and each is taken for a fragment |
| Delivery.DeliveryIsCompletion | src/araba_node.cpp:254-291 | over every run, a fragment of a message delivers exactly the plaintext under the receiver's own key when it completes the indices since the last completion or eviction, and nothing otherwise |
| Delivery.EndToEnd | src/araba_node.cpp:254-291 | with no eviction too late after a fragment, the one that brings the last index delivers the plaintext, and none before it does |
| Delivery.AnyOrderDelivers | src/araba_node.cpp:254-291 | every run that up to some moment has brought all the pieces, in any order, repeated and among anything else, delivers the plaintext, whatever follows |
| Delivery.IdIsFreeAgain | src/fragment.cpp:100-101 | after the delivery nothing is held under the id, so it can be used again |
| SharedId.RunFollowsSlot | src/fragment.cpp:67-101 | pieces of two 2-fragment messages under one id, in any order and repeated: each call follows a slot that holds one piece, and returns one of the messages or a mixture that is neither |
| SharedId.BothSurviveIff | src/fragment.cpp:67-101 | when the four pieces arrive once each, both messages are rebuilt exactly when the first two pieces are of the same one |
| SharedId.InterleavedBothLost | src/fragment.cpp:67-101 | a concrete interleaving that loses both |
| Delivery.DeliveredInOrder | src/araba_node.cpp:254-291 | in particular the packets received one after the other |
| Delivery.ShortDeliveryIff | src/araba_node.cpp:255-261 | a message that is not split is delivered exactly when byte 3 of its IV is at most 1 |
| Delivery.ShortDeliveryByClock | src/crypto.cpp:251-256 | the same in terms of the clock the IV is made of: exactly when clock / 4096 is 0 or 1 modulo 256 |
| Delivery.ShortMessageLost | src/araba_node.cpp:255-261 | a concrete message, sealed at a concrete clock value, that is lost |
| Delivery.SendOnAir | src/araba_node.cpp:501-535 | to a destination in reach every piece of a message of 464 to 1007 bytes, or the one bare packet of a shorter one; else nothing |
| Delivery.SendLeaves | src/araba_node.cpp:515-556 | the counters after a send, and the message waited for or the entries queued |
| Delivery.NothingSent | src/araba_node.cpp:497-520 | without target or text, or with more than 1007 bytes, nothing happens |
| Delivery.SentNumbers | src/fragment.cpp:25-51 | consecutive sequence numbers, 64 hops to live |
| Delivery.SentInAnyOrder | src/araba_node.cpp:530-535 | every run that up to some moment has brought what `send` put on the air delivers the message |
| Delivery.DirectDeliveryIff | src/araba_node.cpp:501-535 | exactly which messages of 1 to 1024 bytes arrive, from what `send` puts on the air |
| StoreForward.PendingStaysOverRun | src/araba_node.cpp:212-223 | the entries of a destination stay queued in order until it is heard |
| StoreForward.DrainOnReceive | src/araba_node.cpp:210-223 | hearing a node sends its entries in order and leaves exactly the others |
| StoreForward.StoreAndForward | src/araba_node.cpp:552-555 | the stored packets come out in order, unchanged but for the sequence number |
| StoreForward.StoredMessageArrives | src/araba_node.cpp:552-555 | every run of the receiver that up to some moment has brought the drained pieces, in any order and among anything else, delivers the plaintext |
| StoreForward.WholeQueueArrives | src/araba_node.cpp:212-223 | in particular one that receives all drained packets in any order, when nothing else in the queue carries the id |
| Exchange.DataOutcome | src/araba_node.cpp:254-319 | exactly when a data packet is delivered and acknowledged, and exactly when it is relayed, to which hop and as which packet |
| Exchange.OtherOutcome | src/araba_node.cpp:198-252 | other packets are neither delivered nor relayed, only a greeting is answered, and a packet of the node itself changes nothing |
| Exchange.AckTaken | src/araba_node.cpp:242-252 | an acknowledgement removes exactly the number it carries |
| Exchange.AckRoundTrip | src/araba_node.cpp:242-291 | the acknowledgement of a delivered packet, received at the source, removes exactly its sequence number |
| Exchange.GreetingAnswered | src/araba_node.cpp:204-235 | a greeting makes its source a neighbour and is answered with the advert of the first 73 neighbours, the source included |
| Exchange.AdvertTeaches | src/araba_node.cpp:237-240 | whoever receives an advert has a route of at most two hops to everything it lists |
| Exchange.DiscoveryExchange | src/araba_node.cpp:186-240 | greeting, answer, and what both nodes know then |
| Exchange.HelloIs | src/araba_node.cpp:186-192 | the greeting, byte by byte |
| NodeRoutes.TableFollowsHistory | src/araba_node.cpp:198-240 | the table of a node is the one of the offers its run made: sources first heard and records of adverts |
| NodeRoutes.NodeFindsBest | src/routing.cpp:61-74 | in every run from an empty table, a hop is found exactly when the earliest of the offers with the fewest hops is at most 30 seconds old |
| NodeRoutes.NodeRouteStaysIff | src/routing.cpp:25-33 | over every run a route stays, with its age, exactly when no offer of the run has fewer hops |
| Network.NeighbourRouteExpires | src/routing.cpp:25-33 | in every run of the network a node finds its route to a neighbour exactly until 30 seconds after it first heard it, with that first entry |
| Network.NothingRelayedLater | src/araba_node.cpp:304-311 | from then on it relays no packet to that neighbour |
| Network.OwnAdvertSound | src/araba_node.cpp:225-235 | a node advertises only its neighbours, at one hop |
| Network.StepKeepsRoutesSound | src/araba_node.cpp:198-240 | every step of every node keeps all routes and packets sound |
| Network.RoutesSoundAlways | src/araba_node.cpp:198-240 | in every run no node lists itself, one hop means neighbour and back, and every other entry has two hops by a neighbour that knows the destination |
| Flood.ForwardLowersTtl | src/araba_node.cpp:304-311 | a forwarded packet had two hops to live or more, loses one and is otherwise the same |
| Flood.ReachIsGeometric | src/araba_node.cpp:304-311 | the bound is the geometric sum |
| Flood.HearingSpends | src/araba_node.cpp:304-311 | every hearing keeps the number of possible transmissions and lowers the number of possible hearings |
| Flood.FloodDiesOut | src/araba_node.cpp:304-311 | one packet causes at most 1 + n + ... + n^(T-1) transmissions, each copy differing in its hops to live only |

## Left out

- Envelope.DecryptPayload: takes at most 1040 bytes, because the code copies the rest past its 1024-byte work buffer.
- Node.Node.ReceivePacket: takes packets that do not complete a message of more than 1040 bytes, for the same reason; a packet that announces more but completes nothing is taken, as when a short message is misread. Node.Node.TakeDataPacket likewise.
- Delivery.DeliveryIsCompletion: the runs of `Delivery`, `StoreForward`, `Network` and `Flood` also cover receptions that complete a message of 1041 to 2048 bytes, where the code overruns its work buffer; the model continues as if the buffer were long enough.
- Envelope.EncryptPayload: takes at most 1024 bytes of text, because the code copies the rest past its padding buffer.
- Node.Node.SendMessage: takes at most 1024 bytes of text, for the same reason.
- RueStore.RueQueue.Enqueue: takes a file with a header of version 1; on any other the code patches an undefined count.
- Delivery.EndToEnd: from the start of the run, when the receiver holds nothing under the id, until the message is complete, nothing else is taken for a fragment of that id, because partial messages are kept by id alone. Other ids are not constrained, and an id may be used again in another run.
- Delivery.ShortDeliveryIff: the receiver holds no partial message under the id it reads from the IV; with one, what it would reassemble is arbitrary.
- Network.RoutesSoundAlways: every packet on the air was sent by some node of the network; a neighbour is a node heard as the source of a packet, which for a relayed packet need not be in radio range.
- src/network.cpp is not part of this model: sending and receiving are a channel of packets, without Ethernet frames or sockets.
- Threads and the mutex: each handler, sweep and command is one step, and the locks are not represented. The receive handler holds the mutex (src/araba_node.cpp:202) when `get_pair_cipher` takes it again (src/araba_node.cpp:89, called at lines 275 and 294); it is an ordinary `std::mutex` (line 29), so the handler blocks there, at its first bare data packet or completed message. What is proved about data packets is about the handler without that second lock.
- Failures of file operations and the buffering of streams.
- `Packet::isValid`, which the node never calls, and the `Router` class, whose members are not defined.
- The command line, logging, printing and the configuration file.
- `derive_key`: the base key is arbitrary. So is the IV, except where `Envelope.ClockIv` is named.
- That an acknowledgement matches its message: messages wait under a counter of their own, while acknowledgements carry the sequence number of a packet.
- Delivery over several hops: a relay first tries to open the packet under its own pair key and drops what it cannot open, so what it forwards depends on the padding it happens to see.
- The strength of the cipher.
