# Wireless simulation driver: rings, receive pipeline, management transmit

A Dafny model of the driver half of a simulated wireless card, and proofs about it. The driver and
a device share memory: the driver publishes work on rings of fixed-size entries, the device consumes
and answers at any moment in between. The model has four layers.

**Rings.** `SourceRing` (host to device) and `DestRing` (device to host) are transition systems whose
events are single host or device actions: caching the remote pointer, taking an entry, storing one
word, publishing, fetching, reporting. Behind the wrapped word pointers run unbounded positions, and
every proof is about those. The classes `SrcRing` and `DstRing` hold the fields of `hal_srng` and
update them in place; each method is proved equal to one step of the transition system.

**Receive pipeline.** `RxPipeline` composes a posting ring, a status ring, the side array `skb[]` with
its masked indices, and the credit `rx_buf_needed`. A program counter says where the holder of the pipe
lock stands, so device actions and the tasklet's unmapping interleave with every sub-step of
`enqueue_pipe` and `recv_next`. `RxInvariant` proves one invariant over every step, `RxTheorems`,
`RxMispairing` and `RxStall` draw the consequences, and the class `RxPipe` is the driver code with its loops and
arrays; whatever the device does between two of its accesses to shared memory is drawn from an arbitrary
schedule, and every state it passes through is proved reachable in the transition system. `TestSender`
does the same for the transmit side.

**Descriptors and ring table.** `Bits` and `Descriptors` model `GENMASK`, `FIELD_PREP` and the 32-bit
arithmetic, and prove that every field is read back exactly when it fits. `RingTable` covers ring ids and
register addresses. `RingSystem` puts all rings on the tables they share, with setup, host steps and device
steps of every ring interleaved; `SourceRing` and `DestRing` are what one ring sees of it.

**Management transmit.** `Framing` is the byte layout of a command inside its WMI and HTC headers and a
reader for it; `Wmi` is the socket buffer, the header pushes, the DMA mapping, their rollback and the
retry loop; `MgmtTx` is the worker above it with its table of 512 ids.

## What is assumed

* The device reads only entries between its own pointer and the published head, consumes them in order,
  and reports one status per consumed buffer, in that order. A report may carry any length.
* Rings of the pipeline have a power-of-two number of entries, and ring sizes in words fit the 20-bit
  register field. One and two entries are not excluded: what happens there is proved as well.
* `dma_map_single` never hands out an address that is still mapped, and a frame the driver still holds is not offered to it
  again; the model ignores such an offer.
* `idr_alloc` hands out the lowest free id. Allocation failures, mapping failures, copy-engine results and
  the crash flag are arbitrary inputs.
* An LMAC ring is set up at most once, since setup does not clear its cells (`RingSystem.InstallFresh`); other
  rings may be set up again at any time. Descriptor memories of different rings do not overlap.
* Shared cells are sequentially consistent.

## What the proofs found

* A status of length zero is consumed without taking the buffer at `sw_index`. Buffers still come out in the
  order they were posted, but delivery k takes its length from status k if and only if none of the first k + 1
  lengths was zero, and from a later buffer's status otherwise (`RxTheorems.LengthBelongsToBuffer`). A run that
  delivers a buffer with a number of bytes other than the one reported for it exists if and only if the rings
  have more than two entries (`RxMispairing.MispairingIff`).
* Each such status also costs one of the n - 2 slots for good (`RxStall.SlotsAccounted`, `RxStall.LostForGood`).
  After n - 2 of them no party ever posts or delivers a buffer again (`RxStall.StalledForever`), and a run that
  gets there exists on every ring (`RxStall.StallReachable`).
* With one entry the credit `nentries - 2` wraps to 2^32 - 1, and `enqueue_pipe` can then return `-ENOSPC` with
  credit left; with two or more entries it never does (`RxTheorems.NoSpaceIff`).
* `HAL_SRNG_RING_ID_MAX` is one short: the last ring id of the third LMAC is refused, and no other valid one
  is (`RingTable.AcceptedIff`, at an input in `RingTable.LastLmacRefused`).
* Kernel and bus address of a ring are aligned separately. Host and device agree on the first entry if and
  only if both addresses are congruent modulo 8 (`Descriptors.AlignedViewsAgree`, at an input where they do not in
  `Descriptors.AlignedViewsDiffer`).
* `hal_srng_setup` returns before `hw_init` for an LMAC ring and leaves its pointer cells as they were, so such a
  ring starts fresh if and only if both cells were zero (`RingSystem.InstallFresh`).
* No path returns a tx id once its command was accepted: runs that send k management frames exist exactly for k
  up to 512, and after 512 every frame with an interface fails with `-ENOSPC` (`MgmtTx.TableRunsOut`).

## Model

| member | source | states |
|---|---|---|
| SourceRing.RunSafe | driver/driver_wireless/wireless_hal.c:623-707 | After any interleaving of host and device steps from setup, cached tail <= device tail <= published head <= granted head <= cached tail + n - 1, every published, unread entry still holds what was published, in every continuation, and the free count is exact |
| SourceRing.StoreMissesUnread | driver/driver_wireless/wireless_hal.c:727-745 | A word the host may store never lies in an entry the device has not consumed |
| SourceRing.NumFreeExact | driver/driver_wireless/wireless_hal.c:649-671 | The free count is n - 1 minus the entries in use against the cached tail, with u32 arithmetic, and zero exactly when `src_get_next_entry` returns NULL |
| SourceRing.NumFreeSlots | driver/driver_wireless/wireless_hal.c:667-670 | Both branches of the count, on slot numbers, without wrap-around |
| SourceRing.GetExact | driver/driver_wireless/wireless_hal.c:734-737 | `src_get_next_entry` succeeds exactly when fewer than n - 1 entries are in use; the wrapped pointer is the next position's slot |
| SourceRing.ReapExact | driver/driver_wireless/wireless_hal.c:715-718 | The reaped getter refuses exactly after a direct grant or after n - 1 grants |
| SourceRing.ReapedAlone | driver/driver_wireless/wireless_hal.c:709-725 | `get_next_reaped` alone, from setup, yields exactly the n - 1 first slots and then NULL |
| SourceRing.DirectDisablesReap | driver/driver_wireless/wireless_hal.c:740-742 | Once `src_get_next_entry` has succeeded, `reap_hp == hp` and the reaped getter yields nothing in every continuation |
| SourceRing.StepInv | driver/driver_wireless/wireless_hal.c:623-745 | Every host or device step keeps pointer order, the reap pointer's rule and the readable entries |
| SourceRing.InitInv | driver/driver_wireless/wireless_hal.c:442-448 | Setup establishes the invariant |
| SourceRing.SrcRing.AccessBegin | driver/driver_wireless/wireless_hal.c:623-630 | Caches the device's tail and changes nothing else |
| SourceRing.SrcRing.SrcNumFree | driver/driver_wireless/wireless_hal.c:649-671 | Returns n - 1 minus the entries in use; syncs the cached tail only when asked |
| SourceRing.SrcRing.GetNextEntry | driver/driver_wireless/wireless_hal.c:727-745 | Returns the next position's slot, inside the ring, or NULL and no change |
| SourceRing.SrcRing.GetNextReaped | driver/driver_wireless/wireless_hal.c:709-725 | Returns the next position's slot, inside the ring, exactly while no direct grant was made and fewer than n - 1 entries were granted |
| SourceRing.SrcRing.AccessEnd | driver/driver_wireless/wireless_hal.c:674-707 | Publishes the head: exactly the entries granted since the last publication become readable |
| DestRing.DstGetExact | driver/driver_wireless/wireless_hal.c:747-764 | Equal tail and cached head mean nothing is unread; the equality-test wrap is the modular step; the next entry holds what the device produced |
| DestRing.DstStepInv | driver/driver_wireless/wireless_hal.c:623-707 | Host steps, and device reports while there is room, keep pointer order and the last n produced entries |
| DestRing.DstRing.GetNextEntry | driver/driver_wireless/wireless_hal.c:747-770 | Returns the oldest unread entry's slot, inside the ring, or NULL exactly when none is known |
| Descriptors.DstDescRoundTrip | driver/driver_wireless/wireless_hal.c:959-967 | The receive descriptor decodes to the buffer's address if and only if the address fits the layout |
| Descriptors.SrcDescRoundTrip | driver/driver_wireless/wireless_hal.c:944-957 | Address, length, swap bit, transfer id and write index are recovered, each if and only if it fits its field |
| Descriptors.RegisterRoundTrip | driver/driver_wireless/wireless_hal.c:337-344 | Base address, ring size, ring id and entry size are recovered from the registers, each if and only if it fits |
| Descriptors.HalLayout | driver/driver_wireless/wireless_hal.h:7-51 | The driver's fields do not overlap; addresses have 40 bits, ring sizes 20, lengths 16 |
| Descriptors.DescriptorInAllocation | driver/driver_wireless/wireless_hal.c:786-798 | Every slot of a ring placed at the aligned address lies wholly inside the allocated bytes and is word-aligned |
| Descriptors.AlignedViewsDiffer | driver/driver_wireless/wireless_hal.c:797-798 | Addresses 16 and 20, where host and device start the ring 4 bytes apart |
| Descriptors.AlignedViewsAgree | driver/driver_wireless/wireless_hal.c:797-798 | Host and device see the same ring start if and only if both raw addresses agree modulo 8 |
| Bits.PackRoundTrip | driver/driver_wireless/wireless_hal.c:950-953 | A word packed from non-overlapping fields gives back each value, if and only if it fits |
| Bits.RoundupPow2Least | driver/driver_wireless/wireless_hal.c:867 | The rounded entry count is the least power of two that is not below the request |
| Bits.MaskIsMod | driver/driver_wireless/wireless_hal.c:784 | Masking with a power of two less one is the remainder |
| RingMath.IndexStep | driver/driver_wireless/wireless_hal.c:1283 | Stepping a masked index follows stepping its unbounded position |
| RingTable.AcceptedIff | driver/driver_wireless/wireless_hal.c:212-232 | A ring of a well-formed configuration is refused exactly when it is the last id of the third LMAC; every accepted id indexes all tables in bounds |
| RingTable.IdsCountUp | driver/driver_wireless/wireless_hal.c:217-226 | Ids start at the row's first, the next ring has the next id, the next LMAC is 15 further, and other rows ignore the LMAC |
| RingTable.TemplateIds | driver/driver_wireless/wireless_hal.c:3-30 | The driver's three rings have ids 125, 8 and 1 |
| RingTable.UniqueIds | driver/driver_wireless/wireless_hal.c:223-226 | Two rings with the same accepted id are the same ring of the same row |
| RingTable.TemplateWellFormed | driver/driver_wireless/wireless_hal.c:3-30 | The driver's own table is well formed |
| RingTable.RegistersApart | driver/driver_wireless/wireless_hal.c:419-424 | Distinct (ring, group, register) triples have distinct addresses, all inside the ring's own window |
| RingTable.RegBaseValue | driver/driver_wireless/wireless_hal.c:423-424 | The three or-ed parts of a register address do not overlap |
| RingTable.LastLmacRefused | driver/driver_wireless/wireless_hal.c:228-229 | A ring the configuration allows that is refused: id 172 |
| RingSystem.Projects | driver/driver_wireless/wireless_hal.c:384-770 | In any interleaving of setups, host steps and device steps of all rings on the shared tables, each ring's view evolves exactly as its own events make it alone |
| RingSystem.SourceLivesAlone | driver/driver_wireless/wireless_hal.c:623-745 | A source ring among all others is the ring of SourceRing fed its own events, so every theorem about that ring holds of it |
| RingSystem.EveryRingSafe | driver/driver_wireless/wireless_hal.c:384-770 | From the tables as allocated, every ring keeps its pointer order and its unread entries through every interleaving |
| RingSystem.OthersUntouched | driver/driver_wireless/wireless_hal.c:384-707 | An event on one ring changes no other ring's record, cells, published pointer or registers |
| RingSystem.OwnStep | driver/driver_wireless/wireless_hal.c:623-770 | On the shared tables a ring's event is exactly its step in SourceRing or DestRing, and keeps it safe |
| RingSystem.InstallFresh | driver/driver_wireless/wireless_hal.c:402-493 | After setup the ring is in its initial state, memory cleared and reap pointer at the last slot, if and only if it is no LMAC ring or its cells were zero; an LMAC ring's cells are left as they were |
| RingSystem.InstallRegisters | driver/driver_wireless/wireless_hal.c:240-374 | Every write of hw_init reaches its register and none is lost to a later one |
| RingSystem.BaseRegisters | driver/driver_wireless/wireless_hal.c:253-257 | After setup registers 0 and 1 decode to the ring's bus address and its size in words, each if and only if it fits |
| RingSystem.IdRegister | driver/driver_wireless/wireless_hal.c:342-344 | Register 2 holds the entry size and, for a destination ring, the ring id, each if and only if it fits |
| RingSystem.CellRegisters | driver/driver_wireless/wireless_hal.c:287-295 | Registers 5 and 6 are the halves of the address of the ring's own pointer cell, except for the idle-link ring |
| RingSystem.IdleLinkKeeps | driver/driver_wireless/wireless_hal.c:287 | The idle-link ring keeps what it had in those two registers |
| RingSystem.PlainRegisters | driver/driver_wireless/wireless_hal.c:275-318 | Both pointer registers are zero; thresholds and control bits are the words composed for them |
| RingSystem.StepGood | driver/driver_wireless/wireless_hal.c:384-770 | Every event on any ring keeps all rings safe |
| RingSystem.Hal.Setup | driver/driver_wireless/wireless_hal.c:384-498 | Returns the id or -EINVAL; the tables become exactly those of the setup event |
| RingSystem.Hal.AccessBegin | driver/driver_wireless/wireless_hal.c:623-638 | Copies the ring's own cell into its cached pointer, in either direction, and nothing else |
| RingSystem.Hal.SrcGetNextEntry | driver/driver_wireless/wireless_hal.c:727-745 | Returns the slot of the next position, inside the ring's memory, or NULL exactly when n - 1 entries are in use; the tables take the ring's own get step |
| RingSystem.Hal.DstGetNextEntry | driver/driver_wireless/wireless_hal.c:747-770 | Returns the slot of the oldest entry not taken, inside the ring's memory, or NULL exactly when all known ones are taken; the tables take the ring's own get step |
| RingSystem.Hal.AccessEnd | driver/driver_wireless/wireless_hal.c:674-707 | Publishes the ring's pointer in its shared cell or in its register, and nothing else |
| RxInvariant.InitInv | driver/driver_wireless/wireless_hal.c:1509-1522 | The pipeline as set up satisfies the invariant |
| RxInvariant.StepInv | driver/driver_wireless/wireless_hal.c:1182-1400 | Every sub-step of post, receive, unmap, device fetch and device report keeps the invariant |
| RxInvariant.RoomToPost | driver/driver_wireless/wireless_hal.c:1260-1273 | With credit left and the tail cached, the free count is positive and the getter succeeds |
| RxInvariant.RoomToReport | driver/driver_wireless/wireless_hal.c:1519 | A device that reports only fetched buffers always finds room on the status ring |
| RxInvariant.TakeReads | driver/driver_wireless/wireless_hal.c:1211-1226 | The length read is the one the device reported at that position, and `skb[sw_index]` is the oldest posted buffer |
| RxTheorems.RefinesFifo | driver/driver_wireless/wireless_hal.c:1182-1296 | Every run, in every interleaving, is observed as a legal run of a FIFO queue of capacity n - 2 whose final contents are the buffers still posted |
| RxTheorems.NoSpaceIff | driver/driver_wireless/wireless_hal.c:1262-1273 | `-ENOSPC` is reachable if and only if the ring has one entry |
| RxTheorems.OneEntryRunsOut | driver/driver_wireless/wireless_hal.c:1519 | The run that shows it: the credit wraps and the first post finds no space |
| RxTheorems.StatusNeverFull | driver/driver_wireless/wireless_hal.c:753-756 | At most n - 2 statuses are unread, so equal tail and head always mean empty |
| RxTheorems.CreditConserved | driver/driver_wireless/wireless_hal.c:1220-1286 | Credit plus (write_index - sw_index) mod n is n - 2, and `skb[i]` is occupied exactly for i in the circular window |
| RxTheorems.Lockstep | driver/driver_wireless/wireless_hal.c:1204-1284 | Posting head is E * write_index; status tail is E * ((sw_index + zero-length statuses read) mod n) |
| RxTheorems.DeviceReads | driver/driver_wireless/wireless_hal.c:1268-1291 | At every point each entry the device may read is the complete descriptor of the buffer posted there, and decodes to its address if and only if that fits |
| RxTheorems.LengthBelongsToBuffer | driver/driver_wireless/wireless_hal.c:1211-1226 | Delivery k is posted buffer k; it takes its length from status k if and only if none of the first k + 1 lengths is zero, and otherwise from a later status |
| RxTheorems.MappingsConserved | driver/driver_wireless/wireless_hal.c:1324-1373 | Live DMA mappings are exactly those of the posted window, the buffer in hand and the one being enqueued, once each |
| RxMispairing.MispairingIff | driver/driver_wireless/wireless_hal.c:1212-1216 | A run in which a delivery's number of bytes differs from the one reported for its buffer exists if and only if there are more than two entries |
| RxMispairing.MispairingRun | driver/driver_wireless/wireless_hal.c:1212-1216 | That run: two buffers, the first reported empty, the second with 100 bytes |
| RxMispairing.PostRound | driver/driver_wireless/wireless_hal.c:1313-1343 | With credit and a fresh mapping, one round of the loop succeeds from every reachable state and puts the buffer last |
| RxMispairing.RecvRound | driver/driver_wireless/wireless_hal.c:1198-1226 | With an unread status, `recv_next` consumes exactly one: nothing is delivered if its length is zero, the oldest posted buffer otherwise |
| RxStall.SlotsAccounted | driver/driver_wireless/wireless_hal.c:1212-1226 | In every reachable state credit, buffers with the device or unread, and zero-length statuses read add up to n - 2 |
| RxStall.LostForGood | driver/driver_wireless/wireless_hal.c:1212-1216 | No continuation regains a slot lost to a zero-length status |
| RxStall.StalledForever | driver/driver_wireless/wireless_hal.c:1182-1348 | Once n - 2 zero-length statuses were read, no continuation posts or delivers a buffer |
| RxStall.StallReachable | driver/driver_wireless/wireless_hal.c:1212-1216 | A run that reaches that state exists on every ring |
| RxPipe.RxPipe.EnqueuePipe | driver/driver_wireless/wireless_hal.c:1242-1296 | Called with credit left it returns 0 whatever the device does meanwhile, appends the buffer and takes one unit of credit |
| RxPipe.RxPipe.PostPipe | driver/driver_wireless/wireless_hal.c:1299-1348 | Posts exactly the first supplied buffers, in order, one a unit of credit, until the credit is used up (0) or a supply fails (its own error, never -ENOSPC); a supply without failures uses up the credit |
| RxPipe.PostPipeIfReady | driver/driver_wireless/wireless_hal.c:1309-1310 | A pipe without both rings has nothing to post and returns 0; any other is posted to, with the same promise |
| RxPipe.RxPipe.RecvNext | driver/driver_wireless/wireless_hal.c:1182-1235 | Takes the oldest unread status, and fails without taking one only if every status reported before the call was read; a positive length delivers the oldest posted buffer with that length and returns one unit of credit, a zero length fails and changes neither; the tail is published |
| RxPipe.RxPipe.Drain | driver/driver_wireless/wireless_hal.c:1370-1384 | Terminates however long the device keeps reporting; takes the statuses in order, delivering each posted buffer with its status, until a zero length or until at least all statuses present at the start are read; keeps, in order, exactly the deliveries that fit |
| RxPipe.FittingExact | driver/driver_wireless/wireless_hal.c:1374-1383 | The kept deliveries are exactly those of at most the buffer's size, as often as they occur |
| RxPipe.FittingInOrder | driver/driver_wireless/wireless_hal.c:1374-1383 | They are kept in the order of delivery |
| RxPipe.DrainReadsAll | driver/driver_wireless/wireless_hal.c:1370 | A drain that meets no zero length among the statuses present at its start reads them all |
| RxPipe.GoodSupplyLasts | driver/driver_wireless/wireless_hal.c:1313-1343 | Supplies at new and different addresses never end the loop before the credit is used up |
| RxPipe.RxPipe.DrainAndReplenish | driver/driver_wireless/wireless_hal.c:1353-1408 | One pass drains and reposts as the two promise, and asks for a retry exactly when credit is left, which means that a supply failed |
| RxPipe.RxPipe.UnmapHandStep | driver/driver_wireless/wireless_hal.c:1373 | A delivered buffer is mapped when it is unmapped, and only its mapping goes |
| RxPipe.RxPipe.CleanupRx | driver/driver_wireless/wireless_hal.c:1560-1569 | Frees exactly the buffers posted and not delivered, once each, after unmapping them; leaves no mapping and every slot empty |
| RxPipe.SlotsOwnMappings | driver/driver_wireless/wireless_hal.c:1560-1567 | In every reachable idle state the occupied slots and the live mappings correspond one to one |
| TestSender.SrcPipe.Send | driver/driver_wireless/wireless_hal.c:970-1041 | Fails with -ENOBUFS exactly when the cached tail leaves no room, changing nothing; otherwise publishes one more entry, the complete descriptor, and records the buffer; head pointer and write index agree |
| Framing.MessageRoundTrip | driver/driver_wireless/wireless_wmi.c:77-114 | For every frame, walking the nested headers recovers command id, tags, interface, id, address, full length, the first min(len, 64) bytes and zero padding, and the payload length is the sum of what it encloses |
| Framing.UnreadWordsZero | driver/driver_wireless/wireless_wmi.c:101-106 | The words no reader looks at, the channel frequency, the transmit-parameter flag, the HTC control word and the endpoint, are zero |
| Framing.WireIsValid | driver/driver_wireless/wireless_wmi.h:44-48 | The driver's header masks fit 32 bits and do not overlap |
| Framing.LeRoundTrip | driver/driver_wireless/wireless_wmi.c:97-106 | A number stored little-endian anywhere in memory is read back whole if it fits |
| Framing.HeaderFields | driver/driver_wireless/wireless_htc.c:34-35 | The header words are u32 and their fields are read back whole |
| Wmi.SkBuff.Push | driver/driver_wireless/wireless_htc.c:28 | Moves the start back over headroom and keeps the message behind it |
| Wmi.HtcSend | driver/driver_wireless/wireless_htc.c:19-60 | All or nothing: success leaves header and mapping, failure leaves the buffer as it was |
| Wmi.CmdSendNowait | driver/driver_wireless/wireless_wmi.c:24-50 | Both headers and a mapping, or start, bytes and mapping as before |
| Wmi.CmdSend | driver/driver_wireless/wireless_wmi.c:52-75 | For any outcomes: all attempts but the last failed and were undone, retries happen exactly on -ENOBUFS, success leaves exactly both headers |
| Wmi.Verdicts | driver/driver_wireless/wireless_wmi.c:64-70 | A failed mapping is -EIO, otherwise the copy engine's result counts, and the crash flag turns any failure into -ESHUTDOWN |
| Wmi.RetriesEnd | driver/driver_wireless/wireless_wmi.c:64-71 | The first attempt not answered -ENOBUFS without a crash is the last; while all are, it goes on to the timeout |
| Wmi.TriesUnique | driver/driver_wireless/wireless_wmi.c:64-71 | The number of evaluations is the only one compatible with retrying exactly on -ENOBUFS until the timeout |
| Wmi.FramedNests | driver/driver_wireless/wireless_wmi.c:33-35 | Framing by the inner and then by the outer header is the three-word prefix |
| Wmi.WmiAllocSkb | driver/driver_wireless/wireless_wmi.c:4-22 | A zeroed message rounded up to words, with headroom for both headers |
| Wmi.MgmtBuild | driver/driver_wireless/wireless_wmi.c:89-110 | The bytes built in place are the command's words, the frame's first bytes and padding |
| Wmi.MgmtSend | driver/driver_wireless/wireless_wmi.c:77-117 | When it returns 0, what was handed over parses back to the frame; otherwise the buffer is unmapped and unframed |
| MgmtTx.LiveIffMapped | driver/driver_wireless/wireless_mac80211.c:33-125 | In every reachable state, with failures anywhere, an id is live exactly when its frame is mapped, ids are below 512 and no frame has two |
| MgmtTx.MessagesNameLiveFrames | driver/driver_wireless/wireless_mac80211.c:71-82 | The message behind live id k parses to id k, to the bus address under which that id's frame is mapped, and to its length and first bytes |
| MgmtTx.WorkResult | driver/driver_wireless/wireless_mac80211.c:46-87 | A frame is sent if and only if fewer than 512 were and nothing fails; no id, a failed mapping and a failed allocation have the errors -ENOSPC, -EIO and -ENOMEM |
| MgmtTx.WorkEffect | driver/driver_wireless/wireless_mac80211.c:46-123 | A sent frame gains the next id and the granted mapping, and its message carries interface, id, granted address and its bytes with the MIC room exactly when due; otherwise the tables are unchanged, and a frame without an interface is freed |
| MgmtTx.TableRunsOut | driver/driver_wireless/wireless_mac80211.c:46-50 | A run that sends exactly k frames exists if and only if k <= 512, and after 512 every further frame is refused |
| MgmtTx.FillTable | driver/driver_wireless/wireless_mac80211.c:110-124 | The run that sends k frames, for every k up to 512 |
| MgmtTx.RunGrows | driver/driver_wireless/wireless_mac80211.c:82-89 | No run takes back an id, or changes the mapping, of a frame that was sent |
| MgmtTx.StepInv | driver/driver_wireless/wireless_mac80211.c:102-125 | Queueing a frame and a turn of the worker keep ids, mappings, messages and queue consistent |
| MgmtTx.NextId | driver/driver_wireless/wireless_mac80211.c:46 | The id handed out is the number of frames sent so far |
| MgmtTx.Mac.MgmtTxWmi | driver/driver_wireless/wireless_mac80211.c:33-100 | Success keeps a new id and the granted mapping and hands over a command with that id, that address and the frame; every failure gives back exactly what was acquired |
| MgmtTx.Mac.QueueTx | driver/driver_wireless/wireless_mac80211.c:127-152 | Accepts a frame exactly when fewer than 512 are queued and, if it is a probe response, at most 48 are pending; it goes to the end, and a refused one changes nothing |
| MgmtTx.Mac.WorkFunc | driver/driver_wireless/wireless_mac80211.c:102-125 | Works until the queue is empty while frames keep arriving for a finite time; what it did is exactly the given arrivals and outcomes, turn by turn |

## Left out

- RingSystem.Hal.Setup: the source writes the first three registers of ring id 104 (WBM idle link) twice with the same values, which is modelled as once; a negative ring number, which the source does not reject, is not passed. `src_num_free` and the reaped getter are events of the system but have no method here beside those of SrcRing.
- RxPipe.RxPipe.PostPipe: a supplied address that is still mapped counts as a failed mapping, since the DMA API does not hand one out. The source leaks the socket buffer when a mapping fails here and when a management command fails; allocations are not accounted for.
- RxPipe.RxPipe.CleanupRx: a pipe without its ring, for which the source returns early only when its buffer size is not zero, is not modelled.
- RxPipe.RxPipe.DrainAndReplenish: the replenish timer running between drain and post is covered by the transition system's theorems, not by this method; the printing and freeing of received buffers is not modelled.
- TestSender.SrcPipe.Send: the count of used entries the source computes for pipes without interrupts is never used there and not modelled; lengths above 16 bits are truncated by the descriptor, as `Descriptors.SrcDescRoundTrip` states.
- Wmi.SkBuff.Push: the kernel panics when headroom is missing and never returns NULL, so the NULL branch of `cmd_send_nowait` is not modelled; every caller is proved to have the headroom.
- Wmi.CmdSend: waiting is modelled by its sequence of condition evaluations; the clock and the wait queue are not.
- MgmtTx.Mac.WorkFunc: frames arrive between turns of the loop; an arrival during a turn only appends to the queue, which the turn does not read again. The interface lock is not modelled, and the pending counter is an input wherever it is read.
- Two fields of a register written together with interrupt thresholds and flags are passed as one opaque value.
- `loop_cnt`, `last_tp`, `last_hp`, timestamps, the CACHED and MSI flags and big-endian hosts have no effect on the modelled behaviour.
- The device beyond its contract, PCI and interrupt setup, memory ordering, liveness of timer and tasklet.
- `wireless_ce.c` is a stub: `ce_send` returns any result.
- The remaining mac80211 operations, cipher and MIC-length tables (the MIC room is an input of at most 16 bytes), scan and rate tables.
