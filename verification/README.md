# Packet paths and codecs of the actor framework, modelled and verified in Dafny

The project models the parts of the framework's network, HTTP and RPC code in which buffers are
shared, cut up and put together again, and proves that they do what they are for.

| files | what they model |
|---|---|
| `VringModel`, `VringTheory`, `VirtioRing`, `Wrap`, `Virtio`, `VirtioQueues` | the virtio split ring: a free list threaded through the descriptor table, 16-bit ring indices, the host as a nondeterministic partner, credits of the transmit and receive queues |
| `Replacer`, `ReplacerTheory`, `ReplacerPages`, `ReplacerSink` | the streaming replacement of `{{key}}` in HTTP responses, compared with substitution in the whole text |
| `Lz4Format`, `Lz4Memory`, `Lz4Compress`, `Lz4Decoder`, `Lz4RoundTrip`, `Lz4Bytes`, `Lz4Decompress` | fragmented LZ4 messages: chunks, linearising, headers, the decoder's history, reassembly |
| `IpMerge`, `IpFragments`, `IpRoundTrip`, `IpArrivals`, `IpBooks`, `IpCache` | IPv4 fragmentation, the packet merger, fragments of several datagrams under one identification, and the bounded cache of incomplete datagrams |
| `Checksum` | the Internet checksum in a wide accumulator |
| `DpdkTso`, `DpdkTx`, `DpdkRx` | the TSO limit of i40e devices, transmission by copy, the return of receive buffers |
| `Proxy` | the queue between shards |
| `Dns` | reference counting of the resolver's sockets |
| `Common`, `Sequences` | shared definitions and facts about lists of buffers |

Code that updates objects in place is modelled by classes and methods, each proved against functions
of the old state; the laws are lemmas about those functions, or invariants that every method keeps.
Protocols with several parties are sets of methods, one for each atomic step: `Valid()` before and
after each of them makes a law hold in every interleaving.

## What was found

* **Checksum.** `checksummer::get` applies `hton` to a 64-bit value, which selects the 64-bit
  overload. On a big-endian machine the result is right; on a little-endian machine it is 0xFFFF
  whatever was summed. The folded sum itself is right on both (`Checksum.Checksummer.Folded`), and
  `Checksum.GetIsRightIff` says exactly when the returned value is.
* **Replacer.** The claim that chunking does not matter is false: `{{{Host}}` cut after its second
  brace is not replaced, because the consumed prefix of a failed match is written without another
  look. `ReplacerTheory.ChunkingDoesNotMatterIff` gives the exact condition: no key whose
  value differs from it stands behind a brace.
* **IPv4.** A fragmented datagram can be put together again if and only if the MTU less 20 is a
  multiple of 8 and the datagram has at most 65515 bytes (`IpRoundTrip.RoundTripIff`). Otherwise a
  byte is missing, or the last fragment is refused, or the length did not fit its 16 bits. All
  datagrams are sent with identification 0, so fragments of two may be put together. Where they
  overlap, a byte that is there stays if all of the new fragment is there already, or everything from
  the byte in front of the new fragment up to it; otherwise the new byte replaces it
  (`IpArrivals.StaysIff`). So what is delivered can be told from the arrivals alone
  (`IpArrivals.DeliveredIff`), and for fragments whose places are equal or apart it is a given
  datagram if and only if the first to come at each place agrees with it and its last byte came
  (`IpArrivals.FirstDeliveredIff`). When the last fragment of a datagram is lost and the next of the
  same size comes, the first half of one is delivered with the second half of the other
  (`IpArrivals.NextIsMixed`).
* **IPv4 headers.** A packet whose header is said to be longer than all of it comes to an assertion
  or, as the first fragment of a datagram, makes `packet::share` run past its table of fragments:
  `IpCache.Ipv4.Receive` says which and when, and `IpCache.Ipv4.TooLongHeaders` shows both.
* **Header checksums.** On reception a checksum is compared with zero; as computed, that holds of no
  packet on a little-endian machine (`Checksum.ChecksumVerifies`).
* **LZ4.** The cursor runs too far after a last chunk that is contiguous; nothing reads it again. The
  decompressor trusts its input. Unless one chunk in one buffer takes the fast path, it runs past its
  data, or gives LZ4 a buffer shorter than it says, if and only if following the headers leads past
  the data or to a last chunk of more than 64 KiB, and no chunk before that fails
  (`Lz4Decompress.Decompress`, `Lz4Decoder.OverrunIffCutShort`); four bytes that announce a chunk
  of 100 do it (`Lz4Decoder.TruncatedOverruns`). The fast path takes a chunk of any size: one buffer
  and several come to different outcomes exactly for a first chunk, marked as the last, of more than
  64 KiB (`Lz4Decoder.SingleDiffersIff`). A chunk may come out shorter than its header says, because
  only negative results are taken for failures: then, and only then, are bytes handed on that nobody
  wrote (`Lz4Decoder.UnwrittenIff`, and `Lz4Decoder.ShortChunkIsAccepted` for a concrete case).
  Behind a half-filled buffer, a last chunk of more than 32 KiB, which the compressor never makes, is
  decoded with only 32 KiB of history (`Lz4Decoder.HistoryIsShortIff`).
* **DNS.** When the other side ends a TCP stream, a read gives no bytes, and the loop of
  `do_recvfrom` reads again without end; `Dns.Resolver.DoRecvfrom` says that it does not return.
* **virtio.** Posting an empty chain would publish descriptor 0, so chains are required not to be
  empty, as all callers ensure.

## Assumptions

* Virtio: the host is any sequence of the steps `HostTake`, `HostReturn` and `HostAsk`: it takes
  chains from the available ring in order, returns each outstanding chain once, in any order, and
  sets its notification fields as it likes (section 2.6 of VIRTIO 1.1). Its steps come between calls
  of the driver. The ring size is a power of two, at most 32768. In a received packet, the first
  buffer says that there is at least one buffer, and holds at least the header.
* Replacer: keys are free of braces and NUL characters, and there is at least one.
* LZ4: messages have at least one byte. The codec is a parameter. `Faithful` says what is assumed of
  it: a block is restored by whoever sees at least its dictionary, blocks refer back at most 64 KiB,
  and sizes are bounded.
  `Lz4Format.StoredIsFaithful` shows that the assumption can be met. Of decompression by itself only
  `Bounded` is assumed, that LZ4 writes no more than there is room for. Of what it wrote before, its
  streaming decoder remembers two runs: the last, which goes on as long as the next output stands
  right behind it, and the one before. Buffers of the decompressor are separate allocations; were two
  adjacent, LZ4 would see more of the history.
* IPv4: `packet::memory()` is the length plus a constant, the size of the descriptor, positive and at
  most 64 KiB. The clock does not run backwards. The MTU is greater than 20: for 20 the loop of
  `send` would not end.
* Checksum: fewer than 2^63 bytes are summed, and no fragment is empty.
* DPDK: packets have no empty fragments, and the TSO limit is asked of packets with fewer than 8
  header segments.
* DNS: `do_connect` is called on a socket that is not yet connected, as its assertion demands.

## Model

| member | source | states |
|---|---|---|
| VringModel.InitialInv | src/network/virtio.cc:415-422 | a fresh ring is well formed: all descriptors are free, in order |
| VringModel.PostKeepsInv | src/network/virtio.cc:427-448 | posting a chain keeps every descriptor in exactly one place, and every slot of the rings right |
| VringModel.CompleteKeepsInv | src/network/virtio.cc:458-475 | completing a chain, which is appended to the free list with a stale last link, keeps the same |
| VringModel.TakeKeepsInv | src/network/virtio.cc:242-261 | the host's taking a chain from the available ring keeps the same |
| VringModel.ReturnKeepsInv | src/network/virtio.cc:263-288 | the host's returning a chain, in any order, keeps the same |
| VringTheory.RunKeepsInv | src/network/virtio.cc:393-477 | the ring is well formed after every run of posts, completions and host steps |
| VringTheory.EveryDescriptorInOnePlace | src/network/virtio.cc:393-477 | after every run, each descriptor is either on the free list, once, or in exactly one chain in flight |
| VringTheory.EveryChainCompletedAtMostOnce | src/network/virtio.cc:454-476 | after every run, no posted chain was completed twice, the chain stored under a head is the one posted there, and all posted chains are in flight or completed |
| VringTheory.ReturnedUntilCompleted | src/network/virtio.cc:454-476 | in every run, a returned chain keeps its buffers and the length that the host gave until it is completed |
| VringTheory.DescriptorsAreConserved | src/network/virtio.cc:393-477 | free descriptors and those in flight make up the ring |
| VringTheory.AvailableRingHasRoom | src/network/virtio.cc:444-449 | while a descriptor is free, fewer chains wait in the available ring than it has slots |
| VringTheory.UsedRingHasRoom | src/network/virtio.cc:454-459 | while the host holds a chain, the used ring has a slot for it |
| VringTheory.NothingInFlight | src/network/virtio.cc:454-476 | once everything is completed, the whole ring is free |
| Wrap.LowBitsIsMod | src/network/virtio.cc:371-376 | masking an index is its remainder by the ring size |
| Wrap.WrapKeepsSlot | src/network/virtio.cc:446 | wrapping a counter at 16 bits does not change its slot |
| Wrap.SlotsApart | src/network/virtio.cc:444-449 | counters less than a ring apart have different slots, also across the wrap |
| Wrap.WrappedEqual | src/network/virtio.cc:455-458 | counters at most a ring apart are equal when their 16-bit values are |
| VirtioRing.AllOfferedBehind | src/network/virtio.cc:427-449 | chains just posted can be read from memory alone: from the slot of each wrapped index on, the links lead through its buffers, address, length and direction of each, and end with the last (section 2.6.5 of VIRTIO 1.1) |
| VirtioRing.PostMemory | src/network/virtio.cc:427-448 | the descriptor table, the chains and the rings in memory represent the ring after a post, and no slot that the host has yet to read is overwritten |
| VirtioRing.TakeMemory | src/network/virtio.cc:242-261 | memory represents the ring after the host took a chain |
| VirtioRing.ReturnMemory | src/network/virtio.cc:263-288 | memory represents the ring after the host returned a chain |
| VirtioRing.CompleteMemory | src/network/virtio.cc:458-475 | relinking the last free descriptor to the head of a returned chain makes memory represent the ring after the completion |
| Virtio.NeedKickIff | src/network/virtio.cc:356-359 | one 16-bit subtraction decides whether the host's notification point is among the entries published since the last notification (section 2.6.10 of VIRTIO 1.1) |
| Virtio.CompletedAsReturned | src/network/virtio.cc:454-462 | the callback is given each returned chain with the buffers that were posted and the length that the host gave, in the order of their return |
| Virtio.Vring.constructor | src/network/virtio.cc:405-422 | a new ring, with a credit for every descriptor |
| Virtio.Vring.AllocateDesc | src/network/virtio.cc:393-402 | takes the head of the free list, which is not empty, and leaves the rest |
| Virtio.Vring.FillChain | src/network/virtio.cc:430-444 | the buffers of a chain are in the first free descriptors, linked in order, the last without a next one; all other descriptors in use are untouched |
| Virtio.Vring.PostChain | src/network/virtio.cc:428-448 | posts one chain as the model does, in place |
| Virtio.Vring.Post | src/network/virtio.cc:427-451 | posts and publishes chains, which then stand in memory in the slots behind those before; without the event index the host is notified exactly when it does not ask to be left alone, and with it exactly when its notification point is among the entries since the last notification or 32767 of them are pending |
| Virtio.Vring.Kick | src/network/virtio.cc:352-368 | notifies exactly when the notification point was passed or 32767 entries are pending; the pending count is the number of chains since the last notification and does not wrap |
| Virtio.Vring.LastOf | src/network/virtio.cc:467-474 | following the links of a returned chain ends at its last descriptor |
| Virtio.Vring.CompleteChain | src/network/virtio.cc:459-474 | completes the oldest returned chain, with the buffers that were posted under its head and the length the host gave in its element of the used ring |
| Virtio.Vring.DoComplete | src/network/virtio.cc:454-477 | completes all returned chains in the order of their return, each with what was posted and the length that was given |
| Virtio.Vring.HostTake | src/network/virtio.cc:242-261 | what the host reads from the next slot of the available ring is the head of the oldest chain it has not taken |
| Virtio.Vring.HostRead | src/network/virtio.cc:217-240 | the host, following the links, reads the buffers that were posted |
| Virtio.Vring.HostReturn | src/network/virtio.cc:263-288 | a chain that the host holds may be returned at any time, with any length, in the next slot of the used ring |
| VirtioQueues.Txq.Gather | src/network/virtio.cc:616-666 | takes packets from the front as long as there are credits, each behind its header; the wait for credits never blocks |
| VirtioQueues.Txq.Post | src/network/virtio.cc:611-672 | posts the packets at the front of the queue: the places that the i-th posted chain covers are those of the header, in front of the first fragment if there is room, and then exactly those of the packet's fragments, in order, none is writeable, and the header takes a buffer only where there is no room; credits and free descriptors stay equal in number, so that no allocation fails; and exactly when the host is notified |
| VirtioQueues.HeaderInFront | src/network/virtio.cc:661-664 | with the header prepended, in room of the first fragment or as a buffer of its own, the host reads the header and then the packet |
| VirtioQueues.Txq.Poll | src/network/virtio.cc:513-517 | completions give back exactly the credits of the completed packets |
| VirtioQueues.Txq.CreditsAreConserved | src/network/virtio.cc:513-517 | credits and the descriptors of packets in flight make up the ring |
| VirtioQueues.Rxq.PrepareBuffers | src/network/virtio.cc:677-699 | posts a writeable buffer of 4096 bytes, at an address of its own, for every credit; and exactly when the host is notified |
| VirtioQueues.Rxq.CompleteBuffer | src/network/virtio.cc:716-755 | buffers are gathered until as many as the first announced are there; exactly their credits come back with the packet, and none before, so that credits, posted buffers and gathered buffers make up the ring |
| VirtioQueues.OneMorePart | src/network/virtio.cc:716-755 | a received buffer, behind its header if it begins a packet, is the next part of the unfinished packet, and completes it when as many have come as its first buffer announced |
| VirtioQueues.PartsAt | src/network/virtio.cc:716-735 | a part is what was returned, where it stands and as long as the host said, without the header if it begins a packet |
| VirtioQueues.Rxq.Poll | src/network/virtio.cc:454-477 | everything that the host returned is received in order: the packets handed on and then the unfinished one are made of the parts that were there and then the received ones, none is empty, and each has as many parts as its first buffer announced |
| VirtioQueues.Rxq.CreditsAreConserved | src/network/virtio.cc:677-699 | credits, the one granted to the refill, the buffers posted, and those gathered for an unfinished packet make up the ring |
| ReplacerTheory.StepKeepsMeaning | src/http/transformers.cc:246-321 | one call of replace keeps the substitution of all that is still to be written |
| ReplacerTheory.GivingUp | src/http/transformers.cc:256-264 | writing the consumed prefix of a failed match is right when no key stands behind its first brace |
| ReplacerTheory.OneChunkIsSubst | src/http/transformers.cc:172-200 | a text given in one piece is written as its one-pass substitution |
| ReplacerTheory.ChunkingDoesNotMatterIff | src/http/transformers.cc:172-200 | every chunking is written as the substitution of the text if and only if no key whose value differs from it follows a brace |
| ReplacerTheory.NoThreeBraces | src/http/transformers.cc:172-200 | a text without three opening braces in a row is written as its substitution, however it is cut |
| ReplacerTheory.SplitInsideShieldedKey | src/http/transformers.cc:256-264 | a chunk that ends behind the first brace of a key that follows a brace loses the key |
| ReplacerTheory.ThreeBracesAndACut | src/http/transformers.cc:229-236 | the concrete case: `{{` and `{Host}}` against `{{{Host}}` |
| ReplacerPages.FilledIsSubst | src/http/transformers.cc:115-118 | the substitution of entries is that of names in double braces by their values, the first of equal names |
| ReplacerPages.PageIsFilled | src/http/transformers.cc:97-113 | a page of plain text without opening braces and of names in double braces becomes the plain text with their values |
| ReplacerSink.StrncmpIsPrefix | src/http/transformers.cc:255-256 | comparing the rest of a key with a buffer of the length of the shorter is comparing prefixes |
| ReplacerSink.LiveEntry | src/http/transformers.cc:252-281 | every entry of the list has consumed the same prefix |
| ReplacerSink.Complete | src/http/transformers.cc:268-275 | an entry that matches in full is the first of the list |
| ReplacerSink.BufferReplace.Add | src/http/transformers.cc:115-118 | adds a name in double braces, and its value |
| ReplacerSink.BufferReplace.GetRemaining | src/http/transformers.cc:287-295 | returns what was consumed and not written |
| ReplacerSink.BufferReplace.CompareEntryAt | src/http/transformers.cc:253-280 | one turn of the loop: the entry is dropped, goes on, or settles the match |
| ReplacerSink.BufferReplace.Match | src/http/transformers.cc:246-285 | the list of entries computes the specified step from the consumed prefix and the buffer |
| ReplacerSink.BufferReplace.Replace | src/http/transformers.cc:297-321 | the same, beginning with the first opening brace when nothing is consumed |
| ReplacerSink.FindBraces | src/http/transformers.cc:229-236 | finds the first brace that is followed by another or by the end |
| ReplacerSink.ContentReplaceSink.constructor | src/http/transformers.cc:158-163 | the i-th entry of the sink has the i-th name in double braces, and the i-th value |
| ReplacerSink.ContentReplaceSink.Put | src/http/transformers.cc:172-184 | writes what the specification makes of a chunk |
| ReplacerSink.ContentReplaceSink.Close | src/http/transformers.cc:190-200 | writes what is left |
| ReplacerSink.Transform | src/http/transformers.cc:172-200 | however the text is cut, what is written is the text with every name in double braces replaced by its value, if it has no three opening braces in a row or is in one piece; and every page is written filled |
| ReplacerSink.ContentReplace | src/http/transformers.cc:210-223 | the filter of a response puts in the protocol and the host of the request; without a host, or for another extension than the one given, the text is written as it is |
| Lz4Format.HeaderRoundTrip | src/rpc/lz4_fragmented_compressor.cc:190-213 | a header of four bytes, least significant first, is read back |
| Lz4Format.HeaderBytes | src/rpc/lz4_fragmented_compressor.cc:53-66 | a header has the four bytes of its number, the least significant first |
| Lz4Format.HeaderIsNumber | src/rpc/lz4_fragmented_compressor.cc:270-277 | what is read is the sum of the four bytes times 1, 2^8, 2^16 and 2^24 |
| Lz4Format.LastBit | src/rpc/lz4_fragmented_compressor.cc:53-66 | a chunk is the last exactly when the top bit of the fourth byte is set, and its size is in the other 31 bits |
| Lz4Decoder.OverrunIff | src/rpc/lz4_fragmented_compressor.cc:328-353 | decompression runs past its data or its buffers exactly for data that the predicate on the wire bytes describes |
| Lz4Decoder.OverrunIffCutShort | src/rpc/lz4_fragmented_compressor.cc:328-353 | these are the data whose headers alone lead past their end, or to a last chunk longer than a buffer, unless a chunk fails first |
| Lz4Decoder.FailedIff | src/rpc/lz4_fragmented_compressor.cc:284-360 | decompression fails exactly where LZ4 refuses a chunk and none before it; the error says 32 KiB for each chunk before that |
| Lz4Decoder.TruncatedOverruns | src/rpc/lz4_fragmented_compressor.cc:243-267 | a concrete case: the bytes 100, 0, 0, 0, which announce 100 bytes that are not there |
| Lz4Decoder.LongChunkOverruns | src/rpc/lz4_fragmented_compressor.cc:315-353 | another: the bytes 1, 0, 1, 128 announce a last chunk of 64 KiB and a byte, which in one buffer is no overrun |
| Lz4Decoder.SingleDiffersIff | src/rpc/lz4_fragmented_compressor.cc:279-296 | the fast path comes to another outcome than the loop exactly for a first chunk, marked as the last, of more than 64 KiB |
| Lz4Decoder.UnwrittenIff | src/rpc/lz4_fragmented_compressor.cc:334-360 | bytes that nobody wrote are handed on if and only if the data are accepted and some chunk came out shorter than announced, on both paths |
| Lz4Decoder.ShortChunkIsAccepted | src/rpc/lz4_fragmented_compressor.cc:284-292 | a concrete case: the bytes 2, 0, 0, 128, 7, a chunk of one byte that is said to have two |
| Lz4Decoder.StaysFull | src/rpc/lz4_fragmented_compressor.cc:304-325 | as long as chunks come out in full, what LZ4 remembers is the end of what was handed out: the current buffer, and the one before |
| Lz4Decoder.SeesRecent | src/rpc/lz4_fragmented_compressor.cc:304-310 | before a chunk of at most 32 KiB, the decoder then sees the last 64 KiB, or all |
| Lz4Decoder.HistoryIsShortIff | src/rpc/lz4_fragmented_compressor.cc:303-325 | behind any number of full chunks, the decoder sees less than the last 64 KiB exactly when the last chunk has more than 32 KiB and follows three chunks, or five, and so on |
| Lz4RoundTrip.RoundTrip | src/rpc/lz4_fragmented_compressor.cc:53-64 | the wire bytes of a message are decoded to the message, all of it written, whatever dictionaries its chunks were compressed with |
| Lz4Bytes.WireIsSent | src/rpc/lz4_fragmented_compressor.cc:53-64 | byte by byte, what is sent: chunks of 32 KiB, each behind four bytes that hold its compressed size, or for the last one its size with the top bit set |
| Lz4Bytes.SentIsRestored | src/rpc/lz4_fragmented_compressor.cc:53-64 | whatever is of this form, with whatever dictionaries, is decoded to the message |
| Lz4Memory.LinearisingIsUnseen | src/rpc/lz4_fragmented_compressor.cc:143-168 | linearising the next chunk, full or short, writes to nothing that the compressor still sees |
| Lz4Memory.LinearisedInStep | src/rpc/lz4_fragmented_compressor.cc:149-162 | the offset in the linearising buffer stays in step with the compressor's dictionary |
| Lz4Memory.ContiguousInStep | src/rpc/lz4_fragmented_compressor.cc:163-166 | the same for a chunk that is compressed where it is |
| Lz4Memory.DictionaryIsMessage | src/rpc/lz4_fragmented_compressor.cc:137-145 | what the compressor sees is the part of the message before the chunk |
| Lz4Compress.Compressor.Linearize | src/rpc/lz4_fragmented_compressor.cc:150-162 | copies the next bytes of the message, from as many fragments as it takes, and nothing else changes |
| Lz4Compress.Compressor.MaybeLinearize | src/rpc/lz4_fragmented_compressor.cc:147-168 | at the returned address stands the next chunk; what the compressor sees is untouched; the cursor is right unless it was the last chunk |
| Lz4Compress.Compressor.CompressShort | src/rpc/lz4_fragmented_compressor.cc:99-110 | a small message in one fragment becomes one buffer: the head and one frame |
| Lz4Compress.Compressor.CompressChunk | src/rpc/lz4_fragmented_compressor.cc:182-190 | appends the frame of a chunk, within the buffer |
| Lz4Compress.Compressor.NextChunk | src/rpc/lz4_fragmented_compressor.cc:170-214 | one turn of the loop, or the last chunk: a frame is appended, in a new buffer if needed |
| Lz4Compress.Compressor.Compress | src/rpc/lz4_fragmented_compressor.cc:86-223 | for every fragmentation, the buffers hold the head, in the first of them, and then the message byte by byte in this form; each has at most 128 KiB, but that the first has room for the head, and all but the last lack the room for another chunk; and the size is theirs |
| Lz4Compress.OneByteOnTheWire | src/rpc/lz4_fragmented_compressor.cc:99-110 | a concrete case: a message of one byte, stored as it is, is sent as 1, 0, 0, 128 and the byte |
| Lz4Decompress.MovedInPlace | src/rpc/lz4_fragmented_compressor.cc:315-323 | when another buffer is begun, the runs that LZ4 remembers stay where they are and keep their bytes, and none of them is the one to go on with |
| Lz4Decompress.AppendInPlace | src/rpc/lz4_fragmented_compressor.cc:334-341 | a chunk that is written behind what is in the current buffer makes LZ4's last run longer, or is another; the run before keeps its bytes |
| Lz4Decompress.Decompressor.CopySrc | src/rpc/lz4_fragmented_compressor.cc:243-267 | returns the next bytes of the wire, without a copy or across buffers |
| Lz4Decompress.Decompressor.CopyAcross | src/rpc/lz4_fragmented_compressor.cc:252-266 | the same, when they are in several buffers, of which some may be empty |
| Lz4Decompress.Decompressor.ReadHeader | src/rpc/lz4_fragmented_compressor.cc:270-277 | reads the header, possibly fragmented |
| Lz4Decompress.Decompressor.GetDest | src/rpc/lz4_fragmented_compressor.cc:315-325 | room for a chunk in the current buffer, or in another that the decoder is then moved to; what was handed out stays |
| Lz4Decompress.Decompressor.Continue | src/rpc/lz4_fragmented_compressor.cc:334-341 | LZ4 reads only bytes that it wrote: both runs when the output goes on with the last, or else the last |
| Lz4Decompress.Decompressor.Chunk | src/rpc/lz4_fragmented_compressor.cc:334-341 | a chunk of any size, decompressed with what the decoder sees then, advances the decoder as specified, also when it comes out short or empty |
| Lz4Decompress.Decompressor.Turn | src/rpc/lz4_fragmented_compressor.cc:329-343 | one turn of the loop comes to the outcome, which is undefined exactly when the data end too soon, or leaves the outcome to the rest |
| Lz4Decompress.Decompressor.Finish | src/rpc/lz4_fragmented_compressor.cc:345-366 | a last chunk of up to 64 KiB, the error, and the total size; undefined exactly for a longer one |
| Lz4Decompress.Short | src/rpc/lz4_fragmented_compressor.cc:279-292 | the fast path for one chunk of any size in one buffer |
| Lz4Decompress.Decompress | src/rpc/lz4_fragmented_compressor.cc:225-367 | for all data and every cut of them into buffers, the result or the error is that of the bytes, with every byte that nobody wrote marked; it fails exactly where LZ4 refuses a chunk; what happens is undefined if and only if the fast path is not taken and the data overrun; and a message that any sender encoded, byte by byte in the documented form, is restored |
| Lz4Decompress.RoundTripOf | src/rpc/lz4_fragmented_compressor.cc:86-367 | a message survives compression, removal of the head, any cut into buffers, and decompression, and every byte of what is handed on was written |
| IpMerge.WholeIsOneSegment | src/network/ip.cc:425-431 | exactly the bytes from 0 to n are there if and only if there is one segment, of n bytes from 0 on |
| IpMerge.MemoryOfOne | src/network/ip.cc:416-420 | a packet takes the memory of its descriptor and its bytes |
| IpMerge.JoinedIsSame | include/nil/actor/network/packet-util.hh:74-96 | joining two segments that meet keeps every byte at its place, that of the first where both have one, and takes no more memory |
| IpMerge.ContainedIsSame | include/nil/actor/network/packet-util.hh:60-73 | a segment within another may be dropped |
| IpMerge.MergeOne | include/nil/actor/network/packet-util.hh:51-107 | a packet is known if and only if one segment holds all its places, and then nothing changes; otherwise it is merged with a segment that it meets, by the six cases, and of the bytes at one place the right one stays |
| IpMerge.JoinNeighbours | include/nil/actor/network/packet-util.hh:109-159 | neighbours that meet are joined until all are apart; the branch that aborts is never taken |
| IpMerge.Merge | include/nil/actor/network/packet-util.hh:51-159 | byte for byte what is there afterwards, for every overlap: a segment that begins before the packet, or where it does and ends no earlier, keeps its bytes, and any other loses those that the packet has; a packet that one segment holds changes nothing; the segments are apart again, and the memory grows by at most that of the packet |
| IpFragments.FieldRoundTrip | include/nil/actor/network/ip.hh:535-554 | the flag and the offset, rounded down to a multiple of 8, are read back from the 16-bit field |
| IpFragments.FieldBits | include/nil/actor/network/ip.hh:531-554 | the low 13 bits of the field are the offset in units of 8, and the next says that more follow (section 3.1 of RFC 791) |
| IpFragments.Send | src/network/ip.cc:237-293 | sends a datagram whole if it fits with its header or the device cuts it up, and else its fragments, in 16-bit arithmetic; unless the device does that, nothing that is sent exceeds the MTU |
| IpFragments.FragmentsFit | src/network/ip.cc:241-288 | fragments fit the MTU, tile the datagram, and all but the last say that more follow; what their length, identification and fragment fields hold |
| IpFragments.GathersOneMore | src/network/ip.cc:166-176 | a fragment merged with what is kept of its datagram, which it agrees with, is gathered |
| IpRoundTrip.CompleteIff | src/network/ip.cc:425-431 | with fragments of a multiple of 8, in any order and repeated: the datagram counts as whole exactly when all fragments have come, and then it is what was sent |
| IpRoundTrip.GapBehind | src/network/ip.cc:250-257 | fragments of another size are shifted, and where the shift shrinks a gap opens |
| IpRoundTrip.SomeMissing | src/network/ip.cc:250-257 | if any fragment is shifted, some byte of the datagram is in none |
| IpRoundTrip.LastIsRefused | src/network/ip.cc:138-141 | the last fragment of a datagram of more than 65515 bytes is refused |
| IpRoundTrip.RoundTripIff | src/network/ip.cc:277-293 | a fragmented datagram of any length can be restored if and only if the fragment size is a multiple of 8 and it has at most 65515 bytes |
| IpArrivals.StaysIff | include/nil/actor/network/packet-util.hh:51-107 | where a packet brings a byte that is there, the old one stays if and only if all of the packet is there already, or everything from the byte in front of the packet up to that one |
| IpArrivals.KeepsOneMore | src/network/ip.cc:166-176 | whatever fragments came under an identification, what is kept is, place by place, the survivor that their order of arrival decides |
| IpArrivals.WholeIff | src/network/ip.cc:425-431 | something is delivered if and only if a last fragment came, and bytes from 0 on without a gap |
| IpArrivals.DeliveredIff | src/network/ip.cc:247-248 | for all fragments, overlapping or not: what is delivered is a given datagram if and only if the survivor at every place that came is its byte, and its last byte came |
| IpArrivals.FirstSurvives | src/network/ip.cc:247-248 | of fragments whose places are equal or apart, the first to come at a place survives |
| IpArrivals.FirstDeliveredIff | src/network/ip.cc:247-248 | of such fragments, what is delivered is a given datagram if and only if the first to come at each place agrees with it and its last byte came |
| IpArrivals.AgreeingIsDelivered | src/network/ip.cc:247-248 | fragments of one identification, of one datagram or several: what is put together is a datagram if all of them agree with it and its last byte came |
| IpArrivals.MixedDelivery | src/network/ip.cc:247-248 | of any two datagrams of two fragments each, the first half of one and the second half of the other are put together, whatever was kept of them |
| IpArrivals.NextIsMixed | src/network/ip.cc:247-248 | when the last fragment of a datagram of two is lost and both of the next come, the first half of one is delivered with the second half of the other |
| IpBooks.FirstIsOldest | src/network/ip.cc:390-393 | the first of the list of ages is the oldest |
| IpBooks.DropOne | src/network/ip.cc:362-369 | dropping a datagram keeps the list and the table in agreement and the total right |
| IpBooks.Begin | src/network/ip.cc:171-176 | so does beginning one, which becomes the youngest |
| IpBooks.Change | src/network/ip.cc:175-176 | so does merging a fragment into one |
| IpCache.MergeInto | src/network/ip.cc:406-423 | the memory noted is that of the header and the segments, and the difference is what is added |
| IpCache.Ipv4.constructor | src/network/ip.cc:50-76 | a new stack keeps nothing, has no memory taken, and no timer set |
| IpCache.Gather | src/network/ip.cc:166-177 | fragments that come in any order and repeated: as soon as all have come, and not before, the datagram is there, as it was sent |
| IpCache.Ipv4.LimitMem | src/network/ip.cc:353-373 | above 4 MiB, the oldest are dropped until the total is at most 3 MiB, and no more than that; otherwise nothing changes |
| IpCache.Ipv4.FragTimeout | src/network/ip.cc:375-399 | exactly what is older than 30 seconds is dropped; the timer is set whenever something is kept |
| IpCache.Ipv4.FragDrop | src/network/ip.cc:401-404 | drops a datagram and subtracts its memory in 32 bits |
| IpCache.Ipv4.Take | src/network/ip.cc:166-176 | merges a fragment and adds the memory in 32 bits, without wrap |
| IpCache.Ipv4.ReceiveFragment | src/network/ip.cc:161-213 | the cache stays in order; a whole datagram is handed on and forgotten, another kept; the others are untouched but for those dropped; the timer is set for 30 seconds from now if it is not set and the datagram is not whole, and otherwise left alone |
| IpCache.Ipv4.Receive | src/network/ip.cc:126-223 | which packets are refused, and which are handed on: a known protocol is given the source, the destination and precisely the payload, of a packet or of a whole datagram, and for another protocol nothing is done; which are fragments; a packet that is taken and has a header longer than itself comes to the assertion, or as a first fragment runs past the fragment table, and no other does |
| IpCache.Ipv4.SameIdIff | src/network/ip.cc:164-165 | two packets are of one datagram exactly when source, destination, identification and protocol agree |
| IpCache.Ipv4.IsFragmentIff | src/network/ip.cc:159-161 | a packet is a fragment exactly when the bit that more follow or a bit of the offset is set |
| IpCache.Ipv4.TooLongHeaders | include/nil/actor/network/packet.hh:520-610 | concrete cases of both: 20 bytes that are said to begin with 15 words of header |
| IpCache.Ipv4.ReceiveAny | src/network/ip.cc:161-213 | a fragment of one of several datagrams that share their identification: what is kept is what survives of all that came, and when they leave no gap it is handed on; other datagrams are untouched, and the memory grows by at most two descriptors and the length of the packet |
| IpCache.Ipv4.ReceiveOneOf | src/network/ip.cc:161-213 | the fragment that completes a datagram hands it on as it was sent, and no other does; the same bound on the memory |
| IpCache.Ipv4.Collect | src/network/ip.cc:126-223 | over a whole run: fragments of a datagram in any order, some more than once, among other packets and timer events, within 30 seconds and while there is memory, are each left waiting or hand the datagram on as it was sent, exactly when they complete it |
| IpCache.FirstCompletesIff | src/network/ip.cc:166-177 | in such a run, the datagram is first handed on with the event by which all of its fragments have come |
| IpCache.HandedOnOnce | src/network/ip.cc:166-177 | if no fragment comes twice, it is handed on at most once |
| IpCache.Ipv4.Later | src/network/ip.cc:375-399 | time may pass between the steps |
| IpCache.Ipv4.Run | src/network/ip.cc:126-223 | over every run of packets and timer events in the order of time, the cache stays in order, up to the first packet with such a header |
| Checksum.OnesSumAlike | src/network/ip_checksum.cc:33-55 | a plain sum of 16-bit words folds to the ones' complement sum, and is zero only with it |
| Checksum.FourWords | src/network/ip_checksum.cc:39-43 | a 64-bit word stands for its four 16-bit words |
| Checksum.FoldedAlike | src/network/ip_checksum.cc:58-62 | adding the high part to the low part keeps what a sum folds to, and does not confuse 0 with 0xFFFF |
| Checksum.Checksummer.Sum | src/network/ip_checksum.cc:33-55 | the accumulator stands for all bytes so far, also when a byte was left over from the fragment before |
| Checksum.Checksummer.SumPacket | src/network/ip_checksum.cc:66-70 | the result depends on the bytes only, not on their split into fragments |
| Checksum.Checksummer.Folded | src/network/ip_checksum.cc:57-62 | folding 128 bits to 64 to 16 gives the ones' complement sum of RFC 1071, without overflow |
| Checksum.Checksummer.Get | src/network/ip_checksum.cc:57-64 | returns the checksum of RFC 1071 on big-endian machines and 0xFFFF on others |
| Checksum.Examples | src/network/ip_checksum.cc:33-64 | the numerical example of section 3 of RFC 1071, and an odd number of bytes |
| Checksum.SwapExample | include/nil/actor/network/byteorder.hh:37-50 | the 64-bit overload reverses eight bytes |
| Checksum.GetIsRightIff | src/network/ip_checksum.cc:63 | the returned value is the checksum in network byte order if and only if the machine is big-endian or all bytes are zero |
| Checksum.ChecksumVerifies | src/network/ip.cc:119-122 | a packet that holds its checksum has the checksum zero of RFC 1071; what the code computes of it, and compares with zero, is zero if and only if the machine is big-endian |
| Checksum.ZeroIff | src/network/ip_checksum.cc:57-62 | the sum is zero only of zero bytes |
| DpdkTso.HeaderSegs | src/network/dpdk.cc:577-581 | the segments that hold headers |
| DpdkTso.ExceedsIff | src/network/dpdk.cc:604-627 | some window of MSS bytes touches too many pieces if the first does or one of what is behind it |
| DpdkTso.OneWindow | src/network/dpdk.cc:605-626 | one turn of the outer loop counts the pieces that a window touches, and finds where the next one begins; segments or left-over bytes become fewer |
| DpdkTso.AnyWindow | src/network/dpdk.cc:604-629 | the loop finds whether some window does, and ends |
| DpdkTso.ShouldLinearize | src/network/dpdk.cc:554-630 | without TSO, more than 8 segments are too many; a TSO packet is linearised if and only if the payload in some window of MSS bytes, counted from the end of the headers, touches more than 8 segments less those that hold headers |
| DpdkTso.PayloadWindows | src/network/dpdk.cc:577-629 | the windows of what is left of the last header segment and the segments behind it are the windows of the packet behind its headers |
| DpdkTso.TouchedIs | src/network/dpdk.cc:605-626 | a window touches the segments that begin before its end and end behind its beginning |
| DpdkTx.CopyToCluster | src/network/dpdk.cc:752-791 | the buffers hold the packet's bytes, all are full but the last, and there is always a next buffer |
| DpdkTx.TxQueue.FromPacketCopy | src/network/dpdk.cc:802-849 | a copy of the packet in as many buffers of 2 KiB as it takes, or none taken, exactly when the pool has fewer |
| DpdkTx.TxQueue.DoOneFrag | src/network/dpdk.cc:865-909 | the pieces of a fragment are its bytes in order, at most 15 KiB each; it fails, and all buffers go back, exactly when the pool has fewer buffers than there are pieces |
| DpdkTx.TxQueue.BuildCluster | src/network/dpdk.cc:689-711 | the chain of all fragments holds the packet, or none is taken, exactly when the pool has too few buffers |
| DpdkTx.CutsBetween | src/network/dpdk.cc:865-900 | there are no fewer pieces than of 15 KiB each, and no more than of 2 KiB each |
| DpdkTx.TxQueue.FillBurst | src/network/dpdk.cc:1274-1286 | the burst carries the first packets of the queue, up to the first for which the pool has too few buffers |
| DpdkTx.TxQueue.Transmit | src/network/dpdk.cc:1288-1307 | the packets that the device takes leave the queue; the unsent rest still carries the next ones |
| DpdkTx.TxQueue.Send | src/network/dpdk.cc:1273-1310 | over all partial bursts and failures, every packet is transmitted once and in order, and no buffer is lost |
| DpdkRx.RxQueue.FromMbuf | src/network/dpdk.cc:2025-2036 | a received chain waits to be returned, and is counted |
| DpdkRx.RxQueue.RefillOneCluster | src/network/dpdk.cc:2039-2053 | descriptors are refilled in order until there is no buffer; the rest of the chain waits again; the count is kept |
| DpdkRx.RxQueue.RefillAll | src/network/dpdk.cc:2058-2070 | chains are refilled from the last one on, until there is no buffer; those in front wait as they did |
| DpdkRx.RxQueue.RxGc | src/network/dpdk.cc:2056-2088 | from the threshold on, as many descriptors are returned as there are buffers for, from the last chain on; both assertions hold, the count is that of what waits, and no descriptor is lost or returned twice |
| Proxy.ProxyDevice.Send | src/network/proxy.cc:53-75 | takes packets in order up to a depth of 128, and changes nothing while the remote shard may read what was taken |
| Proxy.ProxyDevice.RemoteStep | src/network/proxy.cc:67-70 | the remote shard sends the packets on in order |
| Proxy.ProxyDevice.Completed | src/network/proxy.cc:71 | the continuation clears what was taken |
| Proxy.ProxyDevice.Freed | src/network/packet.cc:73-88 | a packet that is freed, once, lowers the depth |
| Proxy.ProxyDevice.Drained | src/network/proxy.cc:53-75 | at depth zero every packet taken was sent on and freed, once |
| Dns.Resolver.Use | src/network/dns.cc:522-526 | one more reference, in the entry and the gate |
| Dns.Resolver.Release | src/network/dns.cc:527-535 | one less; below zero the entry goes |
| Dns.ReleasedAfter | src/network/dns.cc:527-535 | a release changes nothing of an entry but the count |
| Dns.Resolver.NextFd | src/network/dns.cc:888-894 | the first number above that of entries that no entry has |
| Dns.Resolver.DoSocket | src/network/dns.cc:536-554 | a new entry, to which nothing refers |
| Dns.Resolver.DoConnect | src/network/dns.cc:601-652 | a connection, which is pending, or there, or has failed, to an address that is understood or not |
| Dns.Resolver.DoRecvfrom | src/network/dns.cc:653-786 | a read gives what is there or the error, or else waits, at most once before it can be made again; at the end of a TCP stream it does not return |
| Dns.Resolver.DoSendv | src/network/dns.cc:787-881 | a write, taken to succeed unless it fails at once, on a closed entry as well |
| Dns.Resolver.Wake | src/network/dns.cc:623-631 | a continuation finds its own entry still there |
| Dns.Resolver.Finish | src/network/dns.cc:527-535 | an entry goes when it is closed and nothing else refers to it, and only then |
| Dns.Resolver.DoClose | src/network/dns.cc:555-593 | closing refers to the entry until the output is closed, for TCP; a UDP entry goes at once unless something refers to it |
| Dns.Resolver.Close | src/network/dns.cc:398-407 | closes all sockets that there are |
| Dns.Resolver.Drained | src/network/dns.cc:405-406 | when all is closed and every continuation has ended, no entry is left and the gate is at zero |
| Dns.Began | src/network/dns.cc:522-526 | an operation that begins keeps the counts: the gate is the sum over entries of the pending count, plus one if closed |
| Dns.Ended | src/network/dns.cc:527-535 | so does one that ends |
| Dns.Closed | src/network/dns.cc:555-564 | so does closing |

## Left out

- Device setup, ioctls, event descriptors, the poller, offload flags of virtio and DPDK headers, metrics and logging: foreign calls and I/O around the state that is modelled.
- virtio: the count passed to `bunch` is used only for statistics and for the result of `do_complete`, of which the model keeps whether it is zero.
- virtio: memory ordering and host steps in the middle of a driver call; without the event index, the 16-bit count of pending entries, which nothing then resets while notifications are off.
- LZ4: the codec itself, what bytes stand where nobody wrote, two output buffers that happen to be adjacent, and the reuse of thread-local scratch buffers. The simple compressor in `src/rpc/lz4_compressor.cc` adds little to the fragmented one.
- Compressor, Decompressor: buffers to send, buffers received and buffers filled are values; that a buffer is trimmed in place is modelled as its contents ending where it was filled.
- IpMerge.Merge: the ordered map is a sequence, and merging returns the new one instead of updating it in place; fragments of a packet and the count of linearisations are not kept.
- IpCache.Ipv4.ReceiveAny: does not say what becomes of fragments without a single byte, or with header options; `Receive` and `Run` take them.
- IPv4: ARP, the packet filter, the choice of a shard, the header checksum of received packets, and ICMP; the assembled packet that is forwarded to another shard, and protocols that decline a reassembled datagram.
- Checksum: the overloads that sum single integers for pseudo headers.
- DPDK: whether a cluster without copies has to be built again after linearising, offload information, the reception of packets up to their chain, vmxnet3 limits.
- DpdkTx.CopyToCluster: the inline buffers of a cluster stand one after the other in one array.
- Proxy: the message passing between shards is reduced to the stages of the continuation.
- Dns.Resolver.Close: closes over a snapshot of the socket numbers; the loop of the code may erase from the table while it iterates over it.
- DNS: name resolution itself, the data read and written, sockets of other types than TCP and UDP, the poll loop, which may make calls between `Wake` and `Finish`.
- TLS, TCP, DHCP, HTTP routing, JSON and URL handling, and generated code: easy members, foreign calls, or not part of the packet paths.
