# strongSwan data path and message codecs in Dafny

The Android application bundles strongSwan. This project models the parts of it that carry state across calls or have to
undo each other, and proves what they promise:

- the manager of security associations (`SaManager*.dfy`): threads that check associations out and in, sleep on condition
  variables and delete entries while others wait, as a step system over every interleaving; SPI allocation
  (`SpiAllocation.dfy`) and expiry by traffic and time (`SaLifetime.dfy`) on top of it;
- ESP (`ReplayWindow.dfy`, `IpPacket.dfy`, `IpReadBack.dfy`, `EspPacket.dfy`, `IvGenSeq.dfy`, `EspChannel.dfy`): the circular
  anti-replay bitmap, IP parsing, encapsulation, sequential IVs, and one sender and one receiver over a hostile network;
- the policy database (`PolicyDb.dfy`): a list sorted by 32-bit pseudo-priorities;
- TLS records (`TlsRecords.dfy`, `TlsBuild.dfy`): reassembly and fragmentation of a byte stream; their protection with CBC
  (`TlsCbc.dfy`, `ConstantTime.dfy`) and in TLS 1.3 (`TlsSeq.dfy`);
- EAP-SIM and EAP-AKA messages (`SimakaAttributes.dfy`, `SimakaMessage.dfy`, `SimakaGenerate.dfy`, `SimakaRoundTrip.dfy`,
  `SimakaTamper.dfy`, `SimakaSecrecy.dfy`, `SimakaFreed.dfy`);
- RADIUS messages (`RadiusCrypt.dfy`, `RadiusMessage.dfy`, `RadiusRoundTrip.dfy`, `RadiusTamper.dfy`).

`Words.dfy` and `Bytes.dfy` hold machine words, byte strings and the helpers of libstrongswan the above rest on.

Objects that the source updates in place are classes, loops are methods with invariants, and each such method is proved
against a function of its inputs or of the old state; the main results are lemmas about those functions. The mutex-held
regions of the association manager are the exception: each region between two waits is one atomic step, and results are
about every finite run and every fair infinite one. Machine arithmetic is written out where it wraps.

Cryptographic primitives are function values, or such with a flag, that may fail. What a result needs of them stands in
its `requires`: that decryption undoes encryption, that encryption in place keeps the length, that only what was sealed
opens, that a hash or MAC has no collisions. Random numbers and the answers of upper layers are parameters. Block, IV and
MAC size of EAP-SIM/AKA are those of AES-CBC and HMAC-SHA1-128, 16 bytes each.

Where a promise does not hold for every input, the exact condition is proved: `SaLifetime.ScheduledForLife`,
`SaLifetime.ByteLimitExact`, `SaManagerCheckout.CheckoutBySpi`, `IvGenSeq.UsedTwice`,
`IpPackets.ReparseSame`, `EspPackets.AlignedIsExact`, `EspPackets.DecryptUndoesEncrypt`, `EspPackets.WindowMovesExactly`,
`PolicyDb.DeleteUndoesAdd`, `TlsBuild.ReadBackIfShort`, `TlsSeq.ContentReadBack`, `SimakaGenerate.Generate`,
`SimakaFreed.SecondParseDefined`, `SimakaMessages.SimakaMessage.Verify`, `RadiusMessages.RadiusMessage.Add` and
`RadiusRoundTrip.PasswordRecovered`. Two outcomes stand for what C leaves undefined: the use of a freed value
(`Undefined`, `Dangling`) and a write behind the end of a buffer (`NoPlace`).

`dafny verify dfyconfig.toml` checks the project.

## Model

| member | source | states |
|---|---|---|
| `SaManagerSafety.WaitForEntryKeeps` | strongswan/src/libipsec/ipsec_sa_mgr.c:219-240 | wait_for_entry, entered or re-entered after a wake-up, keeps the whole invariant: flags and counter of an entry say exactly which threads are at it, and no wake-up is lost |
| `SaManagerSafety.LeaveWaitKeeps` | strongswan/src/libipsec/ipsec_sa_mgr.c:222-227 | a woken waiter that leaves its wait keeps the invariant of every other entry and the counting of its own |
| `SaManagerSafety.CheckinKeeps` | strongswan/src/libipsec/ipsec_sa_mgr.c:743-759 | checkin finds the entry still locked and listed, frees it and signals; the invariant is kept |
| `SaManagerSafety.DrainKeeps` | strongswan/src/libipsec/ipsec_sa_mgr.c:194-217 | wait_remove_entry up to its next wait, and the unlinking behind it, keeps the invariant |
| `SaManagerSafety.BeginRemoveKeeps` | strongswan/src/libipsec/ipsec_sa_mgr.c:194-201 | setting awaits_deletion, by exactly one thread, keeps the invariant |
| `SaManagerSafety.FlushKeeps` | strongswan/src/libipsec/ipsec_sa_mgr.c:242-259 | flush_entries over any rest of the list keeps the invariant |
| `SaManagerSafety.ExpireKeeps` | strongswan/src/libipsec/ipsec_sa_mgr.c:346-375 | sa_expired on a soft or hard limit keeps the invariant |
| `SaManagerSafety.AddSaKeeps` | strongswan/src/libipsec/ipsec_sa_mgr.c:503-559 | add_sa keeps the invariant |
| `SaManagerSafety.DelSaKeeps` | strongswan/src/libipsec/ipsec_sa_mgr.c:615-661 | del_sa keeps the invariant |
| `SaManagerSafety.DestroyKeeps` | strongswan/src/libipsec/ipsec_sa_mgr.c:180-185 | destroy_entry, run on an unlinked entry, finds it unlocked, without waiters, unlisted and reachable by nobody else |
| `SaManagerSafety.StepKeeps` | strongswan/src/libipsec/ipsec_sa_mgr.c:194-759 | every step of every thread keeps the invariant |
| `SaManagerSafety.RunKeeps` | strongswan/src/libipsec/ipsec_sa_mgr.c:194-759 | every state of every interleaving satisfies the invariant |
| `SaManagerSafety.ExclusiveCheckout` | strongswan/src/libipsec/ipsec_sa_mgr.c:705-759 | in every interleaving at most one thread has an SA checked out, and its entry is still installed and locked |
| `SaManagerSafety.DestroyedOnceAndUnreachable` | strongswan/src/libipsec/ipsec_sa_mgr.c:194-258 | in every interleaving an entry is destroyed at most once, and at that moment it is unlocked, without waiters, out of the list and reachable by no other thread |
| `SaManagerSafety.OneRemover` | strongswan/src/libipsec/ipsec_sa_mgr.c:320-341 | at most one thread removes an entry; others at it are holders or waiters, and none are left once it is unlinked |
| `SaManagerSafety.NoLostWakeup` | strongswan/src/libipsec/ipsec_sa_mgr.c:202-235 | in every reachable state in which a thread sleeps on an entry, the entry is checked out or a thread on it has been woken |
| `SaManagerLiveness.StepRegion` | strongswan/src/libipsec/ipsec_sa_mgr.c:194-759 | a step only wakes other threads, never re-locks or adds waiters to an entry awaiting deletion, and makes entries vanish only by destroying them |
| `SaManagerLiveness.DeletionSettles` | strongswan/src/libipsec/ipsec_sa_mgr.c:202-213 | once awaits_deletion is set, over any stretch of a run, the lock is never taken again and the number of waiters only goes down |
| `SaManagerLiveness.LeavesList` | strongswan/src/libipsec/ipsec_sa_mgr.c:194-258 | on every infinite run in which holders check in and woken threads run, a removal that has begun takes its entry out of the list |
| `SaManagerLiveness.RemovalFinishes` | strongswan/src/libipsec/ipsec_sa_mgr.c:194-258 | on every such run the entry is destroyed, with the destruction on record |
| `SaManagerCheckout.StepMoves` | strongswan/src/libipsec/ipsec_sa_mgr.c:219-759 | whatever a step does to an installed SA: SPI, reqid and direction never change; source, destination and encapsulation become those of an update that takes effect and otherwise stay; the expiry flags are set by reaching a limit, the soft one not after the hard one |
| `SaManagerCheckout.CheckoutByReqid` | strongswan/src/libipsec/ipsec_sa_mgr.c:705-724 | in every interleaving, whoever holds an SA after checkout_by_reqid, at once or after any number of waits, holds an installed one with the reqid and the direction asked for |
| `SaManagerCheckout.CheckoutBySpi` | strongswan/src/libipsec/ipsec_sa_mgr.c:726-741 | the same with the SPI; it still has the destination asked for if and only if no update took effect since, or the last one named the same destination |
| `SaManagerCheckout.FirstByReqid` | strongswan/src/libipsec/ipsec_sa.c:273-278 | an SA handed out at once is the first in the list with that reqid and direction that has not hard-expired |
| `SaManagerCheckout.FirstBySpi` | strongswan/src/libipsec/ipsec_sa.c:259-264 | an SA handed out at once is the first in the list with that SPI and destination that has not hard-expired |
| `SaManagerCheckout.UpdateTakesEffect` | strongswan/src/libipsec/ipsec_sa_mgr.c:561-591 | in every interleaving, when update_sa is over, the SA it found by SPI and addresses has the new addresses and encapsulation and is otherwise as just before, or its entry awaits deletion and nothing changed |
| `SaManagerCheckout.RemovedFor` | strongswan/src/libipsec/ipsec_sa_mgr.c:194-375 | a step removes an entry only because its SA was deleted by its SPI and addresses, hard-expired by the timer that names it and its SPI, or is flushed |
| `SaManagerCheckout.DelSaRemoves` | strongswan/src/libipsec/ipsec_sa_mgr.c:615-634 | del_sa removes the first installed SA with the SPI and the addresses |
| `SaManagerCheckout.AddSaInstalls` | strongswan/src/libipsec/ipsec_sa_mgr.c:503-559 | add_sa puts the SA at the head, free and without waiters, if and only if none with its SPI and addresses is installed |
| `SaManagerFlush.FlushSweeps` | strongswan/src/libipsec/ipsec_sa_mgr.c:242-259 | flush_entries up to its next wait leaves every entry ahead of it removed, or still ahead of the one it waits for |
| `SaManagerFlush.FlushReachesAll` | strongswan/src/libipsec/ipsec_sa_mgr.c:242-259 | in every interleaving, when flush returns, every SA installed when it was called is gone or being removed by another thread, whatever was added and deleted while it waited |
| `SpiAllocation.SwapBytesUndoes` | strongswan/src/libipsec/ipsec_sa_mgr.c:491-492 | htonl undoes itself on every 32-bit number |
| `SpiAllocation.Modulus` | strongswan/src/libipsec/ipsec_sa_mgr.c:460-491 | for every configured spi_min and spi_max the modulus of get_spi is positive and covers exactly the normalised range |
| `SpiAllocation.CandidateInRange` | strongswan/src/libipsec/ipsec_sa_mgr.c:460-492 | every draw gives an SPI inside the normalised range and at or above 256, and inside the configured range if both bounds are |
| `SpiAllocation.FindInbound` | strongswan/src/libipsec/ipsec_sa_mgr.c:434-442 | whether an installed inbound SA uses the SPI |
| `SpiAllocation.AllocateSpi` | strongswan/src/libipsec/ipsec_sa_mgr.c:434-501 | get_spi returns the first draw that is neither reserved nor used inbound, and reserves it; it fails only when the draws are used up |
| `SpiAllocation.StaysReserved` | strongswan/src/libipsec/ipsec_sa_mgr.c:434-448 | over every run a reserved SPI stays so until add_sa with update, or del_sa, gives it back |
| `SpiAllocation.NotReissued` | strongswan/src/libipsec/ipsec_sa_mgr.c:450-501 | over every run, between two get_spi calls that return the same SPI it was given back, and no installed inbound SA uses it then |
| `SaLifetime.IpsecSa.Expire` | strongswan/src/libipsec/ipsec_sa.c:207-228 | one soft and one hard flag, each raising its event at most once, nothing after hard |
| `SaLifetime.IpsecSa.UpdateUsestats` | strongswan/src/libipsec/ipsec_sa.c:230-257 | 64-bit counters, then the first limit reached in the order hard packets, hard bytes, soft packets, soft bytes |
| `SaLifetime.ScheduledForLife` | strongswan/src/libipsec/ipsec_sa_mgr.c:377-410 | the hard limit is scheduled for exactly `life` seconds after installation if and only if the delays fit 32 bits, which every life below 2^32 does |
| `SaLifetime.TruncatedLife` | strongswan/src/libipsec/ipsec_sa_mgr.c:377-410 | a life of 2^32 seconds expires at once |
| `SaLifetime.StepKeeps` | strongswan/src/libipsec/ipsec_sa_mgr.c:346-375 | every traffic, timer, removal and clock step keeps the events and the pending timer consistent |
| `SaLifetime.LifetimeKept` | strongswan/src/libipsec/ipsec_sa.c:207-257 | for every interleaving: at most one soft and one hard event, no soft one after the hard one; timer events come exactly at `rekey` and `life`, and an SA installed longer than `life` is hard-expired |
| `SaLifetime.TrafficLimits` | strongswan/src/libipsec/ipsec_sa.c:230-257 | for every interleaving: an SA used for as many packets as its limit is hard-expired, and for as many bytes unless the counter jumped over a limit near 2^64; an event not raised by the timer means that a limit of its kind was reached |
| `SaLifetime.ByteLimitExact` | strongswan/src/libipsec/ipsec_sa.c:230-257 | a byte limit expires the SA in every run that passes it if and only if it is at most 2^64 - 2^32 + 1; above, a run that wraps the counter is constructed |
| `ReplayWindow.EspContext.SetWindowBit` | strongswan/src/libipsec/esp_context.c:79-95 | exactly the addressed bit of the buffer changes |
| `ReplayWindow.UnderflowIsHarmless` | strongswan/src/libipsec/esp_context.c:107-114 | an index that underflows in 32 bits lands on the right place of the ring, because 128 divides 2^32 |
| `ReplayWindow.EspContext.VerifySeqno` | strongswan/src/libipsec/esp_context.c:107-146 | answers yes if and only if the number is positive, was never authenticated, and is above the highest or less than 128 below it |
| `ReplayWindow.EspContext.SetAuthenticatedSeqno` | strongswan/src/libipsec/esp_context.c:148-175 | adds exactly this number to the set the bitmap stands for, and the highest number becomes the maximum |
| `ReplayWindow.EspContext.Advance` | strongswan/src/libipsec/esp_context.c:159-166 | the shift loop clears exactly the places it passes |
| `ReplayWindow.ShiftRepresents` | strongswan/src/libipsec/esp_context.c:159-169 | after a shift, capped or not, the bitmap stands for the old set plus the new highest number |
| `ReplayWindow.MarkRepresents` | strongswan/src/libipsec/esp_context.c:170-174 | marking inside the window adds exactly that number to the set |
| `ReplayWindow.EspContext.NextSeqno` | strongswan/src/libipsec/esp_context.c:183-192 | outbound numbers go up by one and stop before they would cycle |
| `IpPackets.ParseTransportV6` | strongswan/src/libipsec/ip_packet.c:235-281 | the extension-header loop ends for every input and finds what the recursive reading of the headers finds |
| `IpPackets.CreateV4` | strongswan/src/libipsec/ip_packet.c:305-329 | length test, trimming, header length, fragment offset and transport header decide; what is accepted is taken from the input |
| `IpPackets.CreateV6` | strongswan/src/libipsec/ip_packet.c:331-353 | the same with the extension-header loop |
| `IpPackets.WalkEnds` | strongswan/src/libipsec/ip_packet.c:235-281 | the payload reached is the end of the one the walk began with, and ports come only from TCP or UDP |
| `IpPackets.Create` | strongswan/src/libipsec/ip_packet.c:287-383 | an accepted packet is taken from the input: its encoding is the front that the header covers, its payload the end of that, its addresses those of the header, and ports other than zero stand in front of a TCP or UDP payload |
| `IpPackets.ParseTrims` | strongswan/src/libipsec/ip_packet.c:287-383 | the encoding kept is the part of the input that the header covers |
| `IpPackets.ReparseSame` | strongswan/src/libipsec/ip_packet.c:287-383 | parsing an already trimmed packet gives the same packet if and only if it is at least as long as its base header |
| `IpPackets.ReparseCanFail` | strongswan/src/libipsec/ip_packet.c:305-322 | an IPv4 header with total length zero is such a case |
| `IpReadBack.ReadBackV4` | strongswan/src/libipsec/ip_packet.c:305-329 | a packet built of a header of 20 to 60 bytes and a body, with any padding behind it, is parsed as these addresses, this body, protocol and ports; ports are zero for later fragments and other protocols than TCP and UDP, and a transport header that is cut short is refused |
| `IpReadBack.WalkChain` | strongswan/src/libipsec/ip_packet.c:235-281 | the walk steps over any chain of extension headers, each with its own length, to what is behind them, and notes a fragment header |
| `IpReadBack.ReadBackV6` | strongswan/src/libipsec/ip_packet.c:331-353 | the same as for IPv4, behind any chain of extension headers |
| `EspPackets.GeneratePadding` | strongswan/src/libipsec/esp_packet.c:288-296 | the bytes 1, 2, 3 and so on, in place |
| `EspPackets.CheckPadding` | strongswan/src/libipsec/esp_packet.c:168-183 | accepts exactly what generate_padding writes |
| `EspPackets.EspPacket.StripPadding` | strongswan/src/libipsec/esp_packet.c:185-225 | succeeds if and only if pad length, padding and inner packet are right, and then sets payload and next header |
| `EspPackets.EspPacket.Encrypt` | strongswan/src/libipsec/esp_packet.c:298-388 | draws the next number, builds header, IV, padded plaintext and ICV, or fails with nothing sent |
| `EspPackets.EspPacket.Decrypt` | strongswan/src/libipsec/esp_packet.c:227-282 | status, payload, next header and new window state for every input; the window moves only for an authentic packet with an acceptable number |
| `EspPackets.PaddingFits` | strongswan/src/libipsec/esp_packet.c:328-335 | aligned block and IV sizes give a block-multiple plaintext for every payload, the ICV on a 4-byte boundary, and a pad length that fits its byte for blocks up to 256 |
| `EspPackets.PaddingMinimal` | strongswan/src/libipsec/esp_packet.c:328-334 | with an aligned layout no less padding reaches both the block and the 4-byte boundary |
| `EspPackets.PlaintextLayout` | strongswan/src/libipsec/esp_packet.c:288-296 | the plaintext is the payload, the bytes 1, 2, 3 and so on, their number and the next header |
| `EspPackets.AlignedIsExact` | strongswan/src/libipsec/esp_packet.c:328-335 | block size 1, or 2 or a multiple of 4 with a matching IV size, is exactly when every payload gives a block-multiple plaintext |
| `EspPackets.UnpadPlaintext` | strongswan/src/libipsec/esp_packet.c:185-225 | removing the padding gives back exactly the payload bytes and the next header |
| `EspPackets.UnpaddedExactly` | strongswan/src/libipsec/esp_packet.c:168-225 | padding is stripped if and only if its bytes are 1, 2, 3 and so on and the byte behind them is their number |
| `EspPackets.SentIsWellFormed` | strongswan/src/libipsec/esp_packet.c:298-388 | what encrypt sends has the right shape, SPI and number, and opens to the padded plaintext |
| `EspPackets.DecryptUndoesEncrypt` | strongswan/src/libipsec/esp_packet.c:227-388 | a receiver that may accept the number uses it up and recovers the same IP packet and next header if and only if the packet is at least as long as its own base header; else it is a parse error |
| `EspPackets.WindowMovesExactly` | strongswan/src/libipsec/esp_packet.c:241-282 | the window moves if and only if shape, number and ICV are right; a packet that fails moves it if and only if it is authentic with wrong padding or no IP packet inside |
| `EspPackets.RefusedFor` | strongswan/src/libipsec/esp_packet.c:227-285 | in this order, with the receiver unchanged: a wrong shape is a parse error, a number that is zero, seen or 128 behind is a verify error, and what does not authenticate fails |
| `EspPackets.HeaderAuthenticated` | strongswan/src/libipsec/esp_packet.c:364-380 | with a transform that binds additional data and IV, any other SPI, number or IV in front of the ciphertext makes the packet fail and leaves the receiver as it was |
| `EspPackets.DummyIsParseError` | strongswan/src/libipsec/esp_packet.c:185-225 | a packet without payload uses up its number and is then a parse error |
| `EspChannel.ArrivalOutcome` | strongswan/src/libipsec/esp_packet.c:227-282 | an arrival changes nothing, or accepts a sent packet under its own, new number |
| `EspChannel.RunKeeps` | strongswan/src/libipsec/esp_packet.c:227-388 | over every run of sends and arrivals the records of both ends stay truthful |
| `EspChannel.ReplayFree` | strongswan/src/libipsec/esp_packet.c:255-282 | over every run of a network that drops, reorders, repeats and invents: numbers sent strictly increase and never cycle, each is accepted at most once, and what is delivered under a number was sent under it |
| `EspChannel.IvsDistinct` | strongswan/src/libipsec/esp_packet.c:343-349 | over every run each packet carries the IV generated for its own number; with an injective generator no two packets have the same IV |
| `EspChannel.SequentialIvs` | strongswan/src/libstrongswan/crypto/iv/iv_gen_seq.c:53-96 | with the sequential generator no two packets of a run have the same IV |
| `IvGenSeq.Generator.GetIv` | strongswan/src/libstrongswan/crypto/iv/iv_gen_seq.c:53-96 | the number is moved to the upper half if it is not above the last one, refused if it was used there too, masked with the salt and written behind zeros; a refusal changes nothing |
| `IvGenSeq.NeverTwice` | strongswan/src/libstrongswan/crypto/iv/iv_gen_seq.c:53-96 | whatever numbers below 2^63 the calls are made with, in whatever order, no two give the same IV |
| `IvGenSeq.UsedTwice` | strongswan/src/libstrongswan/crypto/iv/iv_gen_seq.c:66-84 | a number below 2^63 - 1 can be used twice, for different IVs, and not a third time; one of the upper half gives the same IV over and over; the last of each half is never taken |
| `IvGenSeq.IncreasingTaken` | strongswan/src/libstrongswan/crypto/iv/iv_gen_seq.c:53-96 | increasing numbers are all taken as they are |
| `EspChannel.ArrivalsMoveWindow` | strongswan/src/libipsec/esp_packet.c:241-282 | over every run, each arrival changes the receiver if and only if its shape, number and ICV are right; of those, one is not delivered if and only if what was sent under its number is no IP packet |
| `EspChannel.FirstArrivalAccepted` | strongswan/src/libipsec/esp_context.c:116-175 | over every run the first arrival less than 128 behind the highest number is never rejected for its number, and is delivered if its payload is a whole IP packet |
| `PolicyDb.CalcNetbits` | strongswan/src/libstrongswan/selectors/traffic_selector.c:126-168 | the length of the common prefix of both ends of the range; stored as such if and only if behind the first differing bit one end has only zeros and the other only ones |
| `PolicyDb.Netmask` | strongswan/src/libstrongswan/selectors/traffic_selector.c:581-593 | the netmask to_subnet reports is at most 128 |
| `PolicyDb.SubnetNetmask` | strongswan/src/libstrongswan/selectors/traffic_selector.c:99-121 | a range made from a subnet of n bits has the netmask n, so the stored value is the one that would be computed |
| `PolicyDb.PriorityValue` | strongswan/src/libipsec/ipsec_policy_mgr.c:74-114 | the 32-bit arithmetic is exact for every pair of selectors and leaves at least 128 of the base |
| `PolicyDb.PriorityOrder` | strongswan/src/libipsec/ipsec_policy_mgr.c:74-114 | for all selectors, lower value means: better class, or same class and larger mask sum, or equal sums and more specific ports and protocol; both directions |
| `PolicyDb.PolicyManager.AddPolicy` | strongswan/src/libipsec/ipsec_policy_mgr.c:141-181 | the entry is inserted in front of the first one of no lower value, and the list stays sorted with newest first among equals |
| `PolicyDb.PolicyManager.DelPolicy` | strongswan/src/libipsec/ipsec_policy_mgr.c:183-223 | the first entry with the priority and arguments of the request is removed, success if and only if there is one |
| `PolicyDb.PolicyManager.FlushPolicies` | strongswan/src/libipsec/ipsec_policy_mgr.c:225-240 | the list is empty afterwards |
| `PolicyDb.PolicyManager.FindByPacket` | strongswan/src/libipsec/ipsec_policy_mgr.c:242-269 | the matching policy of least value, the newest among equals; none if and only if none matches |
| `PolicyDb.InsertKeepsSorted` | strongswan/src/libipsec/ipsec_policy_mgr.c:169-177 | insertion keeps the order |
| `PolicyDb.AlwaysSorted` | strongswan/src/libipsec/ipsec_policy_mgr.c:141-240 | after any sequence of adds, deletes and flushes the list is sorted |
| `PolicyDb.DeleteUndoesAdd` | strongswan/src/libipsec/ipsec_policy_mgr.c:141-223 | an add followed by a delete with the same arguments restores the list exactly, if and only if the add did not fail or nothing installed matches the request |
| `PolicyDb.NotAboveByValue` | strongswan/src/libipsec/ipsec_policy.c:123-135 | comparing addresses byte by byte is comparing their big-endian values |
| `PolicyDb.AppliesExactly` | strongswan/src/libipsec/ipsec_policy.c:108-135 | a policy applies if and only if direction, reqid and protocol fit and its selectors contain source and destination by value, with their ports |
| `PolicyDb.AddedIsFound` | strongswan/src/libipsec/ipsec_policy_mgr.c:141-181 | a policy that is added is found for exactly the packets its request selects, unless an older one of smaller value applies; for others the answer does not change |
| `PolicyDb.NotInstalled` | strongswan/src/libipsec/ipsec_policy_mgr.c:141-181 | a request installs nothing if and only if it is a forward policy, not for IPsec, or for anything but ESP in tunnel mode without compression |
| `PolicyDb.DeletesTheSame` | strongswan/src/libipsec/ipsec_policy_mgr.c:183-223 | after any adds, deletes and flushes, a delete removes one policy equal in everything the request names, if there is one, and leaves all others |
| `TlsRecords.TlsInput.CompleteHeader` | strongswan/src/libtls/tls.c:290-305 | a header kept from the last call is completed from the front of the new bytes |
| `TlsRecords.TlsInput.InlineRecords` | strongswan/src/libtls/tls.c:311-337 | whole records in the buffer are delivered without copying, in order |
| `TlsRecords.TlsInput.FillInput` | strongswan/src/libtls/tls.c:346-368 | bytes are moved into the allocated record, which is delivered once it is whole; nothing is lost or repeated |
| `TlsRecords.TlsInput.Process` | strongswan/src/libtls/tls.c:283-371 | encodings of the delivered records, bytes kept, and bytes dropped after an answer other than NEED_MORE, are exactly what was there and what was fed |
| `TlsRecords.DeliveredFixed` | strongswan/src/libtls/tls.c:283-371 | conservation determines the delivered records: those of the stream, except at most a last one without data whose header is buffered |
| `TlsRecords.CutsAgree` | strongswan/src/libtls/tls.c:283-371 | two cuts of one stream deliver the same records, up to such a last one |
| `TlsRecords.Reassemble` | strongswan/src/libtls/tls.c:283-371 | end to end for any cut into calls: encodings of the delivered records plus the bytes kept are the bytes fed |
| `TlsBuild.TlsOutput.Collect` | strongswan/src/libtls/tls.c:385-417 | all records the upper layer has are appended, in order |
| `TlsBuild.TlsOutput.Build` | strongswan/src/libtls/tls.c:373-441 | each call hands out the next bytes of the encoded records, as many as fit, and the status says whether any are left |
| `TlsBuild.PrefixArrives` | strongswan/src/libtls/tls.c:283-371 | records that arrive whole from part of a stream are the first ones sent |
| `TlsBuild.ArrivesAsSent` | strongswan/src/libtls/tls.c:283-441 | bytes handed out and bytes received, both conserved, make the received records the first of those sent, and all of them once everything is out, up to a last one without data |
| `TlsBuild.Transmit` | strongswan/src/libtls/tls.c:283-441 | build run with any buffer sizes, its output cut in any way and given to process: the receiver has the first of the records the sender took, and all of them once everything is out, up to a last one without data; for data under 65536 bytes; an upper layer that has only records is emptied, and everything is out iff the buffers have room for it |
| `TlsBuild.ReadBackIfShort` | strongswan/src/libtls/tls.c:392-403 | a record is read back as itself if and only if its data is shorter than 65536 bytes |
| `TlsCbc.PaddingBranchFree` | strongswan/src/libtls/tls_aead_impl.c:119-126 | the branch-free loop gives 1 exactly when the last bytes are valid padding |
| `TlsCbc.CutBranchFree` | strongswan/src/libtls/tls_aead_impl.c:127-132 | the selected length and flag are those of the rule with branches, without wrap-around |
| `TlsCbc.MacBranchFree` | strongswan/src/libtls/tls_aead_impl.c:134-137 | the bytes compared are the MAC behind the data if the sizes are right, and always as many |
| `TlsCbc.UnwrapBranchFree` | strongswan/src/libtls/tls_aead_impl.c:118-150 | verdict and plaintext length of the plain branching rule, for every buffer |
| `TlsCbc.ImplicitIv.Encrypt` | strongswan/src/libtls/tls_aead_impl.c:57-95 | padding, MAC and encryption, and the last ciphertext block as the next IV; the IV stays if anything fails |
| `TlsCbc.ImplicitIv.Decrypt` | strongswan/src/libtls/tls_aead_impl.c:97-151 | the record under the current IV, accepted by the plain rule, and the next IV |
| `TlsCbc.ExplicitIv.Encrypt` | strongswan/src/libtls/tls_aead_expl.c:59-100 | the IV in front of the sealed record |
| `TlsCbc.ExplicitIv.Decrypt` | strongswan/src/libtls/tls_aead_expl.c:102-160 | the record under the IV in front of it, accepted by the plain rule |
| `TlsCbc.PaddedShape` | strongswan/src/libtls/tls_aead_impl.c:76-82 | the padded record is a whole number of blocks and unwraps to the data |
| `TlsCbc.OpenUndoesSeal` | strongswan/src/libtls/tls_aead_impl.c:57-151 | decrypt undoes encrypt for every record |
| `TlsCbc.UnwrapsExactly` | strongswan/src/libtls/tls_aead_impl.c:97-151 | a plaintext is taken for data if and only if it is data, MAC, n bytes n, and n |
| `TlsCbc.RecordBound` | strongswan/src/libtls/tls_aead_impl.c:57-151 | with a collision-free MAC, a record sealed under one sequence number, type and version is not opened under another |
| `TlsCbc.ChainStaysInStep` | strongswan/src/libtls/tls_aead_impl.c:57-151 | over any in-order run both ends hold the same IV after every number of records, the last included, and the next record is sealed and recovered under it |
| `TlsCbc.Converse` | strongswan/src/libtls/tls_aead_impl.c:57-151 | two objects that start with the same IV: every record of any in-order run is recovered and both end with the same IV |
| `ConstantTime.NeqIsUnequal` | strongswan/src/libtls/tls_aead_impl.c:121-126 | the branch-free comparison, from its bit formula, is inequality |
| `ConstantTime.LtIsLess` | strongswan/src/libtls/tls_aead_impl.c:120-131 | the branch-free comparison, from its bit formula, is less-than |
| `ConstantTime.SelectChooses` | strongswan/src/libtls/tls_aead_impl.c:127-137 | the masks select one of two words |
| `TlsSeq.SeqAead.SetKeys` | strongswan/src/libtls/tls_aead_seq.c:185-204 | the IV from the key material is split into salt and IV without loss; a MAC key or a short IV is refused |
| `TlsSeq.SeqAead.GenerateIv` | strongswan/src/libtls/tls_aead_seq.c:62-73 | in place: the sequence number in the last 8 bytes, the IV added onto the end; fails exactly when it does not fit |
| `TlsSeq.SeqAead.Encrypt` | strongswan/src/libtls/tls_aead_seq.c:75-117 | the type behind the data, the outer header as associated data |
| `TlsSeq.TrimPadding` | strongswan/src/libtls/tls_aead_seq.c:152-155 | the loop stops behind the last byte that is not zero |
| `TlsSeq.SeqAead.Decrypt` | strongswan/src/libtls/tls_aead_seq.c:119-163 | accepts if and only if the record opens and a nonzero byte is left, which is the type |
| `TlsSeq.NonceIsStaticXorSeq` | strongswan/src/libtls/tls_aead_seq.c:62-73 | salt plus IV is the static IV XOR the left-padded sequence number |
| `TlsSeq.NoncesDistinct` | strongswan/src/libtls/tls_aead_seq.c:62-73 | distinct sequence numbers give distinct nonces |
| `TlsSeq.ContentReadBack` | strongswan/src/libtls/tls_aead_seq.c:152-161 | data and type are read back if and only if the type is not zero, for every data, also ending in zeros or empty |
| `TlsSeq.DecryptUndoesEncrypt` | strongswan/src/libtls/tls_aead_seq.c:75-163 | decrypt recovers data and type |
| `TlsSeq.ContentExactly` | strongswan/src/libtls/tls_aead_seq.c:148-161 | a plaintext is read as type and data if and only if it is the data, a type other than zero, and zeros |
| `TlsSeq.OuterHeader` | strongswan/src/libtls/tls_aead_seq.c:104-109 | the additional data is the header of the record as sent |
| `TlsSeq.RecordBound` | strongswan/src/libtls/tls_aead_seq.c:75-163 | with a transform that binds its nonce, a record is opened only under its own sequence number |
| `SimakaAttributes.SizeAgrees` | strongswan/src/libsimaka/simaka_message.c:603-759 | the size announced without a buffer is the number of bytes written with one, and the one-byte length field counts its words |
| `SimakaAttributes.EncodedLayout` | strongswan/src/libsimaka/simaka_message.c:603-759 | the byte form of every type, with the length of AT_RES in bits and the others in bytes |
| `SimakaAttributes.EncodeAttribute` | strongswan/src/libsimaka/simaka_message.c:603-759 | in place: exactly the byte form of the attribute is written, nothing else changes |
| `SimakaAttributes.ReadStands` | strongswan/src/libsimaka/simaka_message.c:317-445 | an attribute read from any input lies inside it, with its type and word count in front |
| `SimakaAttributes.WalkTiles` | strongswan/src/libsimaka/simaka_message.c:317-445 | for every input, a successful parse_attributes tiles it exactly by the word counts |
| `SimakaAttributes.ReadEncoded` | strongswan/src/libsimaka/simaka_message.c:317-445 | an encoded attribute is read as itself wherever it stands |
| `SimakaMessages.SimakaMessage.Create` | strongswan/src/libsimaka/simaka_message.c:971-1017 | a message object exists if and only if length, code and type of the header are right |
| `SimakaMessages.SimakaMessage.Handle` | strongswan/src/libsimaka/simaka_message.c:448-469 | MAC, IV, encrypted data and padding are set aside, the rest is appended; a notification without P bit clears it |
| `SimakaMessages.SimakaMessage.ParseAttributes` | strongswan/src/libsimaka/simaka_message.c:317-475 | the loop ends for every input, succeeds if and only if the walk does, and takes its attributes in order |
| `SimakaMessages.SimakaMessage.Decrypt` | strongswan/src/libsimaka/simaka_message.c:480-507 | what decryption adds, or failure; not defined if and only if lengths are right and IV or text were found in decrypted data, which is freed |
| `SimakaMessages.SimakaMessage.Parse` | strongswan/src/libsimaka/simaka_message.c:509-526 | the first call parses and decrypts, a later one only decrypts if attributes were found; when this is not defined |
| `SimakaMessages.SimakaMessage.Verify` | strongswan/src/libsimaka/simaka_message.c:528-597 | accepts by subtype, P bit and MAC over the message with the MAC zeroed, which it leaves so; not defined if and only if it reaches a MAC that was found in decrypted data |
| `SimakaGenerate.Measure` | strongswan/src/libsimaka/simaka_message.c:777-802 | the first pass finds the room both buffers need, and whether a notification lacks the P bit; it fails exactly on a wrong length |
| `SimakaGenerate.WriteAttributes` | strongswan/src/libsimaka/simaka_message.c:880-887 | the second pass fills exactly the room measured, each attribute in its buffer, in order; it fails if and only if a skipped attribute finds the buffer full |
| `SimakaGenerate.AddEncrypted` | strongswan/src/libsimaka/simaka_message.c:889-929 | AT_PADDING completes the blocks, then AT_IV and AT_ENCR_DATA |
| `SimakaGenerate.AddMac` | strongswan/src/libsimaka/simaka_message.c:931-944 | the MAC is the signature over the message with zeros in its place and the additional data |
| `SimakaGenerate.Generate` | strongswan/src/libsimaka/simaka_message.c:761-958 | the whole message, or failure, as a function of header, attributes and keys; types without a rule are skipped, and one that is last with nothing behind it writes behind the buffer, in no other case |
| `SimakaGenerate.StraysExactly` | strongswan/src/libsimaka/simaka_message.c:746-756 | that case in terms of the attributes: nothing secret, no MAC, and a skipped one at the end |
| `SimakaGenerate.SkippedAloneStrays` | strongswan/src/libsimaka/simaka_message.c:746-756 | a start message with only AT_CHECKCODE is such a case |
| `SimakaFreed.DecryptionFrees` | strongswan/src/libsimaka/simaka_message.c:448-505 | after a successful decryption MAC, IV or text are freed values if and only if the plaintext holds such an attribute |
| `SimakaFreed.FirstParseDefined` | strongswan/src/libsimaka/simaka_message.c:509-526 | the first parse of any message is defined |
| `SimakaFreed.SecondParseDefined` | strongswan/src/libsimaka/simaka_message.c:480-526 | a second parse uses a freed value if and only if attributes were found, there is a key, the lengths are right and IV or text are freed |
| `SimakaFreed.FreedValuesAreUsed` | strongswan/src/libsimaka/simaka_message.c:480-597 | for every working cipher there is a message that parses, and for which verify and a second parse are not defined |
| `SimakaRoundTrip.ParseUndoesGenerate` | strongswan/src/libsimaka/simaka_message.c:317-958 | parsing a generated message with the same keys yields the attributes sent in the clear, in order, followed by the encrypted-only ones, in order |
| `SimakaRoundTrip.VerifyAcceptsGenerated` | strongswan/src/libsimaka/simaka_message.c:528-597 | for a generated message the verdict of the peer, with the same additional data, is defined and is acceptance if and only if it has a rule for the subtype; so a MAC is there whenever demanded, P bit included |
| `SimakaRoundTrip.LateKeys` | strongswan/src/libsimaka/simaka_message.c:509-526 | parsing before the keys are known and again afterwards gives the same as parsing with them |
| `SimakaTamper.ParseKeepsPlace` | strongswan/src/libsimaka/simaka_message.c:317-526 | after any number of calls of parse, the MAC that counts is the last one in the message |
| `SimakaTamper.OneMac` | strongswan/src/libsimaka/simaka_message.c:528-597 | a message accepted where a MAC is demanded (subtypes 1, 11, 13 and 12 without the P bit) is refused with any other 16 bytes in its place |
| `SimakaTamper.WithoutMac` | strongswan/src/libsimaka/simaka_message.c:528-578 | where none is demanded the subtype alone decides; where one is, a missing MAC or key is a refusal |
| `SimakaTamper.MacBinds` | strongswan/src/libsimaka/simaka_message.c:580-597 | with a collision-free signature, the MAC of an accepted message determines the whole message and the additional data |
| `SimakaSecrecy.SecretsHidden` | strongswan/src/libsimaka/simaka_message.c:268-284 | a generated message can be read without keys, and what is read holds no attribute of types 19, 20, 21, 132 and 133 |
| `SimakaSecrecy.GeneratedLayout` | strongswan/src/libsimaka/simaka_message.c:761-958 | the message is the header, the other attributes, the encryption of those under the IV in front of it, and AT_MAC exactly for challenges, reauthentications and notifications with a code that lacks 0x40 |
| `SimakaSecrecy.PBitMeans` | strongswan/src/libsimaka/simaka_message.c:460-467 | the P bit is kept if and only if every notification seen had 0x40 in its first byte |
| `RadiusCrypt.Crypt` | strongswan/src/libradius/radius_message.c:404-463 | in place the buffer ends up hidden by the MD5 chain; into a separate buffer the output is what the input hides; wrong lengths are refused unchanged |
| `RadiusCrypt.RevealUndoesHide` | strongswan/src/libradius/radius_message.c:404-463 | a hidden value has exactly one plain form, for every secret, salt, authenticator and block-multiple length |
| `RadiusCrypt.HideUndoesReveal` | strongswan/src/libradius/radius_message.c:404-463 | and a plain value exactly one hidden form |
| `RadiusCrypt.HiddenBound` | strongswan/src/libradius/radius_message.c:404-463 | with a collision-free hash, a value has this hidden form under one secret, authenticator and salt only |
| `RadiusMessages.AttributeEnumerator.Enumerate` | strongswan/src/libradius/radius_message.c:247-275 | the attribute at the cursor if it is whole, and the cursor behind it |
| `RadiusMessages.ReadAll` | strongswan/src/libradius/radius_message.c:247-296 | enumeration ends for every message and yields its attributes in order |
| `RadiusMessages.RadiusMessage.Parse` | strongswan/src/libradius/radius_message.c:702-716 | a message is accepted if and only if it is as long as its length field says and holds a header |
| `RadiusMessages.RadiusMessage.Add` | strongswan/src/libradius/radius_message.c:380-402 | the first password is kept back null-padded; anything else is appended, cut to 253 bytes; the message stays well-formed if and only if it stays below 65536 bytes |
| `RadiusMessages.RadiusMessage.Sign` | strongswan/src/libradius/radius_message.c:465-530 | authenticator, hidden password, Message-Authenticator over zeros and Response-Authenticator, in this order; fails only if a primitive does |
| `RadiusMessages.RadiusMessage.CheckAttributes` | strongswan/src/libradius/radius_message.c:567-601 | the first Message-Authenticator decides; the message is unchanged unless that is wrong, which leaves zeros in its place |
| `RadiusMessages.RadiusMessage.Verify` | strongswan/src/libradius/radius_message.c:532-615 | verdict and every byte left behind as functions of the bytes received; an accepted message is unchanged |
| `RadiusRoundTrip.MessageReadBack` | strongswan/src/libradius/radius_message.c:247-296 | a message enumerates as exactly the attributes it was made of |
| `RadiusRoundTrip.MessageLayout` | strongswan/src/libradius/radius_message.c:30-53 | code, identifier, length in network order, authenticator and attributes |
| `RadiusRoundTrip.BuiltReadsBack` | strongswan/src/libradius/radius_message.c:380-402 | a message built by repeated add, under 65536 bytes, enumerates back as the same attributes cut to 253 bytes |
| `RadiusRoundTrip.SignedIsAccepted` | strongswan/src/libradius/radius_message.c:465-615 | a request signed with a random authenticator, or any other message without, and with no earlier Message-Authenticator, is accepted by the holder of the same secret if and only if it has a Message-Authenticator or no EAP-Message |
| `RadiusTamper.OneAuthenticator` | strongswan/src/libradius/radius_message.c:544-563 | an accepted response is refused with any other authenticator |
| `RadiusTamper.ResponseBound` | strongswan/src/libradius/radius_message.c:544-563 | with a collision-free hash, the authenticator of an accepted response determines the response, the secret and the authenticator of the request |
| `RadiusTamper.ScanExactly` | strongswan/src/libradius/radius_message.c:565-615 | the attributes pass if and only if the first Message-Authenticator is the signature of the message with zeros in its place, or there is none and no EAP-Message |
| `RadiusTamper.OneMessageAuthenticator` | strongswan/src/libradius/radius_message.c:569-596 | an accepted message is refused with any other value in its Message-Authenticator |
| `RadiusTamper.MessageBound` | strongswan/src/libradius/radius_message.c:569-596 | with a collision-free signature, the value of the Message-Authenticator determines the message, and in a response the authenticator of the request |
| `RadiusTamper.EapNeedsMac` | strongswan/src/libradius/radius_message.c:611-615 | a message with an EAP-Message is accepted only with a right Message-Authenticator |
| `RadiusRoundTrip.PasswordFits` | strongswan/src/libradius/radius_message.c:385-393 | a padded password fits its attribute if and only if it has at most 240 bytes |
| `RadiusRoundTrip.PasswordRecovered` | strongswan/src/libradius/radius_message.c:469-500 | a signed request carries the hidden password if and only if that has at most 253 bytes; then its only plain form is the padded password, else it has none |

## Left out

- SaManager: the regions of the manager are pure steps and not methods on shared objects; `waiting_threads` does not wrap, which would take 2^32 threads; the acquire bookkeeping (check_acquire, flush_acquires) is not modelled.
- SaManagerCheckout.CheckoutByReqid: does not say that an SA handed out after a wait has not hard-expired meanwhile, because the match runs before the sleep; nor that SPI and addresses stay unique across update_sa, which the source does not ensure.
- SaLifetime.LifetimeKept: the scheduler runs a job at the time it is due; a delay in it delays the event.
- RadiusMessages.RadiusMessage.Add: says nothing about adding to a message whose 16-bit length has wrapped already.
- RadiusMessages.RadiusMessage.Sign: a message that would reach 65536 bytes by signing is outside its precondition, because the length the second of its steps works with would have wrapped.
- SimakaMessages.SimakaMessage.ParseAttributes: says nothing about the attributes collected before a failure.
- PolicyDb: reference counts of policies are not modelled.
- EspPackets: checksums, UDP encapsulation and the addresses of the outer packet are not modelled.
- EspChannel: the lookup of the SA, its direction and the policy around encrypt and decrypt are not part of the runs.
- Cryptographic primitives, random number generators, IV generators other than the sequential one and key derivation are parameters.
- TLS handshake, alerts, session cache and the layers above records are not modelled; the layer above a record answers with any status.
- tls_aead.c, tls_aead_null.c and the vendor attribute enumerator of RADIUS are not modelled.
- Sockets, timers, jobs, event relays, message hooks, logging and memory management are not modelled, except the destruction of entries and the freeing of decrypted data.
- The Android application code is not modelled.
