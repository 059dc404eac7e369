# A verified model of the secure-send command line

secure-send moves a file, or a ZIP made on the fly, from one terminal to another over a WebRTC data channel. The two
ends find each other either through a rotating PIN and Nostr relays or by exchanging SS03 codes by hand. This project
models the parts of it where a mistake would lose data, pair the wrong peers or hang, and proves what they keep.
`dafny verify dfyconfig.toml` checks everything.

## What is modelled

**The transfer protocol.** `Chunk` has the wire format around an ideal AEAD, which opens exactly what was sealed under
the same key, nonce and index. `Done` has the closing message. `Receive` and `Streamed` are the receive loop as a state
transition, once for known sizes (an index set, seek and write) and once for unknown ones (strict append). `RunReceiver`
is the loop itself on a mutable file system, with its part file, clean-up, rename and acknowledgement; `Send` is the
sending loop. `Archive` is what feeds it: the ZIP writer that cuts chunks, the file reader that coalesces short reads.
`Pipe` is the bounded channel between ZIP worker and sender, `Walk` the choice of files. `EndToEnd` runs both ends as a
transition system over a channel that keeps order but may close or stall, and `ZipTransfer` joins that system with
`Pipe`: the whole way of an archive, from the ZIP worker's writes to the destination.

**The PIN handshake.** `PinTime` has the clock rules, `Generations` the sender's retained PINs and its check of a claim,
`Lookup` the receiver's checks, `Messages` the signed events with symbolic keys and boxes. `ClaimConfirm` puts any number
of honest senders and receivers on a network that keeps every event for ever and shows it to anyone, repeatedly and in any
order, or never. Outsiders publish under their own identities whatever they can build from boxes they have seen and from
the keys of leaked PINs. The sealed claim carries the receiver's ECDH key and nonces but not its Nostr key, so agreement
is stated on keys, nonces and salt. `Signals` is the handling of offers, answers and candidates afterwards, `Pin` the PIN
as text.

**SS03, STUN and the send gate.** `Ss03` works on bit-vectors of the source's widths. `Stun` parses byte strings; its
grammar of attributes is independent of the parser. `SendGate` interleaves the atomic loads, stores and notifications of
one worker with those of any number of senders.

Code that changes state in the source is imperative here (`RunReceiver`, `Send`, `Archive`, `Walk`, `Generations.Retained`,
`Signals`, `Stun`, `Ss03`, `Pin`) and is tied by its postconditions to the functions the theorems are about. Counters are
unbounded: the 2 GiB and 65536-chunk guards keep those of the transfer far from overflow, digits that overflow a u64 are
refused explicitly, and buckets, seeds and keystream have their real widths.

## Where the code and its words differ

* The age test on rendezvous events stands under the remark that an event is claimable only while its sender honours the
  PIN (`src/webrtc/nostr_receiver.rs:388-389`). It compares with the maximum age of a PIN, while the exact expiry is the
  end of the next bucket (`src/crypto/pin.rs:49-51`), so it also lets lapsed events pass:
  `PinTime.AgeTestPassesLapsed` says exactly when. The sender's own window still decides.
* `docs/ARCHITECTURE.md` speaks of a fingerprint of eight base32 characters; the code prints twelve hexadecimal ones. The
  fingerprint is not part of the model.
* Two retained generations with the same PIN are possible in principle, and the newer then hides the older
  (`Generations.SharedKeyHidesOlder`; the exact condition is `Generations.ClaimHonouredExactly`).

## Model

| member | source | states |
|---|---|---|
| EndToEnd.SenderOkMeansDelivered | src/transfer.rs:49-149 | Over every run of sender, receiver and an ordered channel that may close or stall at any moment: when the sender reports success, the receiver's disk is what it was, with the destination holding, byte for byte, the concatenation of the chunks the source yielded, and no part file |
| EndToEnd.AllOrNothing | src/transfer.rs:157-341 | In every reachable state the destination is either as it was, present or absent, or holds the whole source; a receiver that gave up in the loop has removed its part file and changed nothing else, and one that could not put a complete file in place leaves the part file and nothing else |
| EndToEnd.AnythingMayFail | src/transfer.rs:84-94 | Nothing is assumed of the environment: each side may give up while at work, putting the complete file in place may fail, the channel may close at any time and then lose any tail in either direction |
| EndToEnd.OnlyAckCounts | src/transfer.rs:130-149 | Of the replies only an acknowledgement makes the sender succeed; others are read and ignored |
| EndToEnd.CompletedTookAll | src/transfer.rs:189-300 | A receive loop that completes on any prefix of what a sender put on the channel has taken all of it, and the sender had sent DONE |
| EndToEnd.CompletedFile | src/transfer.rs:189-300 | The file of a completed loop is the sender's source, in both reassembly modes |
| EndToEnd.StepKeeps | src/transfer.rs:49-341 | Every step of either side or of the channel keeps the invariant that links log, wire, index set, disk and acknowledgement |
| EndToEnd.Invariant | src/transfer.rs:49-341 | That invariant holds in every state of every run |
| EndToEnd.ScriptCompletes | src/transfer.rs:60-116 | Everything an honest source makes the sender put on the channel drives the receive loop to completion |
| EndToEnd.HonestNeverRejected | src/transfer.rs:229-298 | In no reachable state of a run with an honest source does the receive loop refuse the next message |
| EndToEnd.PayloadDelivered | src/archive.rs:106-138 | A payload of at most 2 GiB cut by the chunk producers is such a source, and is what a successful run leaves at the destination |
| EndToEnd.HonestRunCanSucceed | src/transfer.rs:49-341 | Every honest source can be delivered: from the start a run leads, step by step, to the sender's success with the source at the destination |
| Receive.ExactCompletes | src/transfer.rs:200-298 | With a known size the loop completes if and only if the messages before DONE are the chunks 0..N-1 in some order, each authentic and of its own length, and DONE carries N and the size; then every chunk of the pre-sized file holds its one message's text, so no zero hole survives |
| Receive.OrderIndependent | src/transfer.rs:232-298 | Any permutation of the chunk messages completes as well and gives the same file |
| Receive.ExactPrefix | src/transfer.rs:229-298 | The loop goes on after exactly the lists of fitting messages with pairwise distinct indices, for every size up to the cap |
| Receive.ExactTakes | src/transfer.rs:229-298 | One message is taken if and only if it is authentic for a free index in range, has that chunk's length and respects the size cap; the next state is then that text written at the index's offset, that index marked and both counters advanced |
| Receive.HoldsAfterWrite | src/transfer.rs:288-293 | Seeking and writing one chunk leaves every other chunk of the file in place |
| Receive.LengthsSum | src/transfer.rs:37-45 | The plaintext lengths of all chunks of a file add up to its size |
| Receive.StartableExactly | src/transfer.rs:164-169 | The chunk-index check lets through exactly the sizes up to 65536 chunks of 128 KiB |
| Receive.MarksBounded | src/transfer.rs:182-184 | Pigeonhole on the index set: as many marks as there are chunks means all of them, and the marked lengths then add up to the size |
| Receive.DoneCheck | src/transfer.rs:200-227 | A text message completes the loop if and only if it is a DONE that repeats both running counts and, with a known size, the expected ones |
| Receive.TextRefusals | src/transfer.rs:200-223 | Exactly when a text message is refused as no DONE, for its chunk count or for its byte total |
| Receive.ChunkRefusals | src/transfer.rs:230-254 | Exactly when a chunk is refused as too short, out of range, duplicate, out of order, or following a short one |
| Receive.LengthRefusals | src/transfer.rs:255-286 | Exactly when a chunk that may come now is refused for its length, for the size cap, or as not authentic |
| Receive.CompletesAtFirstText | src/transfer.rs:189-300 | A completed loop took chunk messages only and then one DONE; nothing after it matters |
| Receive.BinariesNeverComplete | src/transfer.rs:189-300 | Without a DONE no sequence of chunk messages completes the loop |
| Receive.AfterEnds | src/transfer.rs:189-300 | Messages after the end of the loop change neither its outcome nor its file |
| Streamed.StreamCompletes | src/transfer.rs:200-298 | Without a known size the loop completes if and only if the indices are 0,1,2,... in order, every chunk is authentic, all but the last are exactly 128 KiB, none is empty, and DONE carries the count and the byte length; the file is then the texts one after another |
| Streamed.StreamPrefix | src/transfer.rs:244-298 | The same characterisation at every point of the stream, with the running counters |
| Streamed.StreamTakes | src/transfer.rs:244-298 | When exactly one more streamed message is taken, and the state it leaves |
| Streamed.ModesAgree | src/transfer.rs:232-298 | A message list completes the append mode if and only if it is in index order and completes the offset mode for the byte count its DONE names, and the two files are equal |
| Streamed.InOrderFile | src/transfer.rs:288-293 | A file holding each chunk's text at its offset is the texts one after another |
| Streamed.StreamLength | src/transfer.rs:37-45 | For pieces that are full except for the last, the chunk count and the chunk lengths computed from the total are the real ones |
| RunReceiver.TakeChunk | src/transfer.rs:229-298 | The loop body on a real file with a position: it does to the file what the state transition says, or fails and leaves it alone |
| RunReceiver.ReceiveLoop | src/transfer.rs:189-301 | The loop ends as the specification says, or in a disk fault, and the part file holds the specified bytes |
| RunReceiver.Run | src/transfer.rs:157-341 | Success or a lost acknowledgement: the part file has become the destination. A failure in the loop, disk faults included: the part file is gone. A failure to size, flush, sync or rename the part file: it is left behind, empty or complete, as the source leaves it. Nothing else on the disk ever changes, the destination is as it was unless the receive completed, and the result names the first fault |
| RunReceiver.PartPathIsOther | src/transfer.rs:171-174 | The part file is never the destination |
| RunReceiver.PartPathExtends | src/transfer.rs:171-174 | Extending the extension of a file name, or giving it one, appends `.part` to the name |
| RunReceiver.OpensExactly | src/transfer.rs:164-180 | The part file is opened for the sizes of at most 65536 chunks, if it can be created and, with a known size, sized |
| RunReceiver.OutFile.WriteAll | src/transfer.rs:288-293 | Writing at the position overwrites or extends the file there and moves the position |
| Send.RunSender | src/transfer.rs:49-117 | The sender succeeds if and only if its source ends well, keeps every limit and has the announced size, the channel takes every message and an acknowledgement arrives; after any other failure a prefix of the chunk messages, and no DONE, is on the channel |
| Send.WaitForAck | src/transfer.rs:130-149 | An acknowledgement is found if and only if one is among the replies, whatever else is there |
| Send.AdmittedExactly | src/transfer.rs:60-80 | The per-chunk guards admit a source if and only if it has at most 65536 chunks, each of 1 to 131072 bytes, and a total within the cap and the announced size |
| Send.SealedCarries | src/transfer.rs:82-83 | Message j of the sender names index j and opens there to chunk j: the u16 cast is exact |
| Chunk.OpensExactlyEncryptions | src/crypto/chunk.rs:43-98 | A message opens to a text at an index if and only if it is an encryption of that text for that index and key |
| Chunk.EncryptionLayout | src/crypto/chunk.rs:43-98 | An encrypted chunk is its index, high byte first, the nonce, and the ciphertext that authenticates these index bytes; its length is fixed and it decrypts |
| Chunk.SoundIsPossible | src/crypto/chunk.rs:43-98 | The ideal assumed of the cipher can be met |
| Done.ParseDoneAccepts | src/transfer.rs:343-361 | `DONE` parses to (n, b) if and only if the message is `DONE:`, digits of value n, `:`, digits of value b, both within the limits; leading zeros are fine, overflowing values are not |
| Done.DoneRoundTrip | src/transfer.rs:111-113 | What the sender prints is read back exactly when the counts are within the limits |
| Done.ValueOfDecimal | src/transfer.rs:111-113 | Printing a number in decimal and evaluating the digits gives the number |
| Done.DecimalIsShortest | src/transfer.rs:111-113 | The printed number is the one string of digits of that value without a leading zero |
| Done.SpellsOnce | src/transfer.rs:347 | A message splits into its two digit strings in one way only |
| Archive.CanonicalIsUnique | src/archive.rs:367-391 | Only one list of chunks that are full except for the last concatenates to given bytes |
| Archive.ChunkingIsCanonical | src/archive.rs:108-125 | Cutting bytes into 128 KiB pieces yields such a list, and gives the bytes back |
| Archive.CanonicalAdmitted | src/transfer.rs:60-80 | Such a list never meets the sender's chunk-size or chunk-index guards, and under the 2 GiB cap has at most 16384 chunks |
| Archive.ChunkWriter.Write | src/archive.rs:376-391 | One write appends its bytes to what has been written and keeps every chunk handed over full; a failing one has handed over a prefix of it |
| Archive.ChunkWriter.Finish | src/archive.rs:367-373 | The last chunk is handed over only if it is not empty, and the chunks are then the chunking of everything written |
| Archive.WriteZip | src/archive.rs:331-349 | However the ZIP library splits its output into writes, the channel receives the chunking of the concatenated bytes |
| Archive.FileStream.NextChunk | src/archive.rs:108-125 | Whatever the reads return, the next full chunk, or what is left, or the end |
| Archive.ReadFile | src/archive.rs:108-125 | Reading a file yields the chunking of its bytes, for any pattern of short reads, which may differ from chunk to chunk |
| Pipe.NothingLost | src/archive.rs:82-101 | In every interleaving of ZIP worker, channel and reader: at most two items queued; while the reader has not gone away, chunks consumed, queued, handed over and partial are together exactly what was written; and what was consumed is a prefix of it even after that |
| Pipe.CleanEnd | src/archive.rs:126-135 | The reader sees a clean end only if the worker finished without an error, and it has then consumed the chunking of everything written |
| ZipTransfer.DoneOnlyAfterCleanEnd | src/transfer.rs:60-113 | Over every joint run of ZIP worker, bounded channel, sender, data channel and receiver: the sender puts a text message on the data channel only after the worker finished without an error and every chunk was consumed and sent, and the message is the DONE of exactly the bytes written |
| ZipTransfer.ArchiveDelivered | src/transfer.rs:49-149 | A sender that reports success, or a receiver that has put a file in place, has delivered byte for byte what the worker wrote, and the worker had finished without an error |
| ZipTransfer.NothingFromAFailedWorker | src/archive.rs:89-96 | While the worker has not finished without an error there is no DONE on the channel, no success, and the destination, present or absent before, is as it was |
| ZipTransfer.OneChunkAtATime | src/transfer.rs:60-98 | In every reachable state a sending sender has taken at most one chunk that it has not sent |
| ZipTransfer.StepKeeps | src/archive.rs:74-138 | Every step of either half keeps the invariants of both, the sender's source being what it has consumed so far |
| ZipTransfer.AnyArchiveCanBeDelivered | src/archive.rs:74-138 | For any bytes within the size cap some joint run has the worker write them and ends with the sender's success and exactly these bytes at the destination |
| Pipe.FailureIsFinal | src/archive.rs:92-95 | Once the worker has failed, no continuation of the run shows the reader a clean end |
| Pipe.NoDeadlock | src/archive.rs:361-365 | While the reader still reads, worker or reader can move |
| Pipe.ErrorIsReported | src/archive.rs:89-96 | A worker that fails midway reports it through the channel, and the reader sees an error |
| Pipe.ReaderMayLeave | src/archive.rs:361-365 | When the reader has gone, the next chunk fails and the worker ends in an error, whether it was writing or finishing |
| Pipe.StepKeeps | src/archive.rs:82-138 | Every step keeps the channel invariant |
| Walk.Entries.CollectDir | src/archive.rs:275-306 | The walk ends although symbolic links may form cycles; it succeeds only if all it reaches is readable and textual, and has then added exactly one entry per regular file or file link reached through real directories; a duplicate key was in the map before the folder was started |
| Walk.Entries.InsertEntry | src/archive.rs:308-314 | A present key is refused and nothing changes; otherwise it is added |
| Walk.KeysAreDistinct | src/archive.rs:285-287 | Within one folder a key stands for one file |
| Walk.PlanEntries | src/archive.rs:240-272 | A plan is made if and only if every input is acceptable, no two inputs give one key and something is given; it holds exactly what the inputs give, and a duplicate always comes from two different inputs |
| Walk.SharedKeyMeansSameName | src/archive.rs:245-263 | Two inputs can only clash if they have the same name and both are files or both folders |
| Walk.ExampleGives | src/archive.rs:275-306 | A folder with a file, a link to a file, a link to itself, a dangling link and a subfolder gives exactly its two files and the linked one, under their slash-separated paths; a loose file goes by its name |
| Walk.AcceptableExactly | src/archive.rs:245-263 | An input is acceptable if and only if it has a name that is text and leads to a file, or to a readable folder with nothing unreadable or misnamed in reach |
| Walk.ExamplePlan | src/archive.rs:240-272 | That folder and a loose file make a plan |
| Walk.ExampleRefusals | src/archive.rs:240-272 | The same file twice, a dangling input or no input at all do not |
| Ss03.SeedIsBijective | src/signaling/manual.rs:149-154 | The finalizer is a bijection of u32: an explicit inverse undoes it on both sides |
| Ss03.SeedVector | src/signaling/manual.rs:149-154 | MurmurHash3's known value: its finalizer takes 0x12345678 to 0xe37cd1bc |
| Ss03.ZeroSeedBucket | src/signaling/manual.rs:149-154 | The seed is zero for the one bucket equal to the base seed |
| Ss03.XorShiftIsBijective | src/signaling/manual.rs:156-161 | xorshift32 is a bijection of u32, again with an explicit inverse |
| Ss03.XorShiftVector | src/signaling/manual.rs:156-161 | A known value of xorshift32 with shifts 13, 17 and 5 |
| Ss03.PadIsLinear | src/signaling/manual.rs:165-173 | Every keystream byte is a GF(2)-linear map of the seed |
| Ss03.HeadCollision | src/signaling/manual.rs:165-173 | Two seeds agree on the first four keystream bytes if and only if they are equal or their XOR is 0xE4C37601 |
| Ss03.FiveBytesDetermineSeed | src/signaling/manual.rs:165-173 | Two seeds agree on the first five keystream bytes if and only if they are equal |
| Ss03.XorObfuscate | src/signaling/manual.rs:165-173 | The loop XORs byte i with keystream byte i |
| Ss03.ObfuscateIsInvolution | src/signaling/manual.rs:165-173 | Obfuscating twice under one seed gives the data back |
| Ss03.PlainBucket | src/signaling/manual.rs:149-173 | Five or more bytes go out in the clear in exactly one bucket |
| Ss03.HeadCheck | src/signaling/manual.rs:224-228 | The cheap check of four bytes agrees with de-obfuscating everything, and passes under another seed exactly when that seed is equal or 0xE4C37601 away |
| Ss03.Encode | src/signaling/manual.rs:190-205 | The code is the base64 of the header and the obfuscated inner bytes |
| Ss03.CodeLayout | src/signaling/manual.rs:190-205 | A code decodes from base64 to `SS03` and the obfuscation of `mag!` and the compressed JSON |
| Common.WhitespaceCodes | src/signaling/manual.rs:210 | Whitespace is the 25 code points of the Unicode property that `char::is_whitespace` tests |
| Ss03.StripRecovers | src/signaling/manual.rs:210 | Stripping gives back a code from exactly the texts that have whitespace strewn into it |
| Ss03.Decode | src/signaling/manual.rs:209-243 | The two-bucket loop returns what the specification of decoding says, error cases included |
| Ss03.DecodesOnlyCodes | src/signaling/manual.rs:209-243 | Whatever decodes has that layout under the seed of this bucket or the one before, and is an offer or answer with a 65-byte key |
| Ss03.DecodeRefusals | src/signaling/manual.rs:209-243 | Exactly when decoding refuses for the base64, the header, the payload found, or because neither bucket yields one |
| Ss03.DecodeWindow | src/signaling/manual.rs:190-243 | For every payload and every way of spreading whitespace through its code: decoding in the bucket of encoding yields it; in the next bucket it yields what an attempt with the current seed makes of the code, if anything, and otherwise the payload, and such an attempt needs the two seeds to be 0xE4C37601 apart; outside the window, with no such pair of seeds, decoding reports failure |
| Ss03.RoundTrip | src/signaling/manual.rs:190-243 | In the bucket of encoding, decoding returns the payload if and only if it is an offer or answer with a 65-byte key |
| ClaimConfirm.ConfirmMeansAgreement | src/webrtc/nostr_receiver.rs:446-525 | Over every run of any number of senders, receivers and outsiders on relays that drop, repeat, reorder and replay: a receiver that accepts a confirm from the honest sender it found is the receiver whose ECDH key and nonce that sender is locked to, for the rendezvous nonce and under the PIN it used, and both derive the same session keys |
| ClaimConfirm.OneReceiverConfirmed | src/webrtc/nostr_sender.rs:122-146 | No two receivers are ever confirmed in one sender run |
| ClaimConfirm.OnlyThePairHasTheKeys | src/webrtc/nostr_sender.rs:122-146 | No third party derives the session keys of a confirmed pair, whatever private key, public key and salt it uses |
| ClaimConfirm.HonestRendezvousFound | src/webrtc/nostr_receiver.rs:387-436 | An honest rendezvous event is found, with its sender's key, salt and nonce, by whoever looks under its PIN before it is too old |
| ClaimConfirm.MintedNoncesAreNotEmpty | src/webrtc/nostr_sender.rs:291-340 | In every reachable state the nonce of every generation minted is one a receiver accepts |
| ClaimConfirm.HonestPairCanConfirm | src/webrtc/nostr_sender.rs:122-146 | From every reachable state a new sender and a new receiver that types its PIN can go on to complete the handshake |
| ClaimConfirm.PinAuthenticatesSender | src/webrtc/nostr_receiver.rs:396-435 | Whoever a receiver finds under a PIN that has not leaked is an honest sender that minted that PIN, with its real ECDH key |
| ClaimConfirm.PinAuthenticatesReceiver | src/webrtc/nostr_sender.rs:425-471 | A sender locked under a PIN that has not leaked is locked to an honest receiver that typed it and found this sender, and the two share session keys |
| ClaimConfirm.LockedInWindow | src/webrtc/nostr_sender.rs:410-416 | A lock is only ever taken on a claim bound to a generation minted since the last refresh whose bucket is active while the claim is checked |
| ClaimConfirm.HonestClaimHonoured | src/webrtc/nostr_sender.rs:425-471 | An honest claim heard while its generation is retained and active, under a key no newer retained one shares, locks the sender, and the resulting confirm is one its receiver accepts |
| ClaimConfirm.StepKeeps | src/webrtc/nostr_sender.rs:347-420 | Every step of any party keeps the protocol invariant |
| ClaimConfirm.OutsidersAreFree | src/webrtc/nostr_sender.rs:404-416 | Outsiders may at any time publish, under any identity of their own and with any tags, what they make up, what leaked PINs let them seal and every box they have seen |
| ClaimConfirm.TimeIsFree | src/webrtc/nostr_sender.rs:347-420 | Time may pass in any step and between steps, by any amount |
| ClaimConfirm.MomentsAreFree | src/webrtc/nostr_sender.rs:291-340 | PINs may be minted and looked up at any moment, with any tags |
| ClaimConfirm.Invariant | src/webrtc/nostr_sender.rs:347-420 | The protocol invariant holds in every reachable state |
| Messages.SessionKeysAgree | src/crypto/ecdh.rs:83-110 | Both sides derive the same keys from matching halves and one salt, for any salt of at least 16 bytes and no other, and signaling and content keys differ |
| Messages.KeysTellPairsApart | src/crypto/ecdh.rs:83-110 | Equal session keys come from the same pair of private keys and the same salt |
| Messages.DerivedKeys | src/crypto/ecdh.rs:83-110 | The keys are derived from the shared secret, the salt of at least 16 bytes, and one label each |
| Messages.HandshakesParse | src/signaling/nostr.rs:385-402 | An event parses to a handshake if and only if it is of the data kind, says claim or confirm accordingly and names the transfer |
| Messages.OpensExactly | src/signaling/nostr.rs:355-366 | Exactly the bodies sealed under a key open under it, a claim's only with the sender's key in it |
| Generations.RegisterKeepsHistory | src/webrtc/nostr_sender.rs:371-375 | With a clock that does not go back, registering on the pruned list gives what pruning the full history since the last refresh would |
| Generations.PruningIsIncremental | src/webrtc/nostr_sender.rs:371-375 | Pruning early never drops what a later pruning would keep |
| Generations.Retained.Register | src/webrtc/nostr_sender.rs:371-375 | After every registration the retained list is the mint history since the last refresh, newest first, filtered by activity |
| Generations.Retained.Refresh | src/webrtc/nostr_sender.rs:394-403 | A refresh forgets everything minted before it |
| Generations.VerifyClaim | src/webrtc/nostr_sender.rs:425-471 | The scan returns the verdict of the specification, clock readings included |
| Generations.ClaimAcceptedExactly | src/webrtc/nostr_sender.rs:425-471 | A claim is accepted if and only if it is bound to a retained generation active at both clock readings and no newer active generation opens it; the lock records its author, key and body |
| Generations.AcceptedClaimIsBound | src/webrtc/nostr_sender.rs:446-468 | An accepted claim, field by field: the transfer, the nonce and the key of a retained generation, the sender's own ECDH key, a nonce and a readable key |
| Generations.ClaimComplete | src/webrtc/nostr_sender.rs:436-468 | With distinct retained keys, every bound claim under a generation that stays active is accepted |
| Generations.ClaimHonouredExactly | src/webrtc/nostr_sender.rs:436-468 | Without that: a bound claim under a retained generation that stays active is accepted if and only if the newest active generation with the same key carries the same nonce and stays active too |
| Generations.SharedKeyHidesOlder | src/webrtc/nostr_sender.rs:436-456 | The distinctness is needed: a newer active generation with the same key hides the older one |
| Lookup.FindRendezvous | src/webrtc/nostr_receiver.rs:362-439 | Among the fetched events, sorted newest first, the first that passes every check is returned with its contents; each error means what it says |
| Lookup.MatchOfExactly | src/webrtc/nostr_receiver.rs:387-436 | A rendezvous event passes if and only if it is recent, complete, sealed under this PIN, carries a readable key and a nonce, and names its own author and transfer |
| Lookup.AcceptsConfirmExactly | src/webrtc/nostr_receiver.rs:469-489 | A confirm is accepted if and only if it comes from the sender found, is sealed under this PIN, and repeats the transfer, both nonces and the receiver's key |
| Lookup.NewestFirstIsStable | src/webrtc/nostr_receiver.rs:381 | Candidates are tried newest first, all of them, those of one second in the order fetched |
| PinTime.WindowsAgree | src/crypto/pin.rs:270-278 | At millisecond precision, for a bucket that has begun: the sender honours it, the receiver derives its hint and its expiration tag lies ahead, all three or none |
| PinTime.ActiveWindow | src/crypto/pin.rs:270-278 | A bucket is active during its own two minutes and the next two |
| PinTime.TooOldExactly | src/webrtc/nostr_receiver.rs:390-394 | An event is too old when it was created more than four minutes ago, and never when it is dated after the receiver's clock |
| PinTime.AgeTestIsLenient | src/webrtc/nostr_receiver.rs:390-394 | The receiver's age test never refuses an event whose sender would still honour the PIN, despite whole seconds |
| PinTime.AgeTestPassesLapsed | src/webrtc/nostr_receiver.rs:390-394 | It lets an event pass whose PIN has lapsed if and only if the time lies between the expiration and the whole-second creation time plus the maximum age, both included |
| PinTime.AgeTestIsNeverExact | src/webrtc/nostr_receiver.rs:390-394 | That interval is never empty: in every bucket, an event created as its PIN is minted passes at the moment the PIN lapses |
| PinTime.AgeTestIsNotExact | src/webrtc/nostr_receiver.rs:390-394 | A concrete such event and time |
| PinTime.InactiveForever | src/crypto/pin.rs:275-278 | A bucket that has lapsed never becomes active again |
| PinTime.HintMembers | src/webrtc/nostr_receiver.rs:84-90 | Hints are derived for the current bucket and the one before it, saturating at zero |
| Signals.SignalsInOrder | src/webrtc/nostr_sender.rs:516-558 | Over every event sequence without an error: candidates applied and then queued are the peer's candidates in first-delivery order, nothing is applied before the description, nothing stays queued after it, and only the first description is used |
| Signals.AcceptsExactlyPeerSignals | src/signaling/nostr.rs:429-453 | Exactly the signal events made by the peer, for this transfer and under this key, are accepted |
| Signals.HonestSignalsApplied | src/webrtc/nostr_sender.rs:516-558 | Every candidate a peer publishes before or after its description reaches the connection, in order, and so does the description |
| Signals.WithoutEffect | src/webrtc/nostr_sender.rs:523-558 | Signals that are not the peer's, bring no candidate, are of the wrong kind or come after the description change nothing; a first description the stack refuses ends the attempt |
| Signals.DuplicatesIgnored | src/webrtc/nostr_sender.rs:523-525 | Redelivered events change nothing, errors included |
| Signals.OrderIrrelevant | src/webrtc/nostr_sender.rs:516-558 | Two deliveries of the same events, in any order and with any repetition, end with the same candidates |
| Signals.SenderSignals.Handle | src/webrtc/nostr_sender.rs:516-558 | The handler takes the specified step on seen set, flag, queue and peer, and fails exactly when that step does |
| Signals.ReceiveSignals | src/webrtc/nostr_receiver.rs:560-616 | The receiver's two phases, collecting until the offer and applying afterwards, compute the specified run |
| Stun.ParseStunBindingResponse | src/webrtc/common.rs:759-804 | The loop stays within every packet, ends, and returns what the recursive walk over attributes returns |
| Stun.ParsesExactly | src/webrtc/common.rs:759-804 | For every packet: an address is returned if and only if the packet is a binding success response to this transaction whose attributes are padded ones that are not a mapped address, followed by a mapped address that decodes to it |
| Stun.DecodesEncodings | src/webrtc/common.rs:776-798 | A value decodes to an address if and only if it starts with the encoding of that address in section 14.2 of RFC 8489, IPv4 and IPv6 |
| Stun.ResponseRoundTrip | src/webrtc/common.rs:759-804 | A response written out as in sections 5 and 14 of RFC 8489, with any other padded attributes before XOR-MAPPED-ADDRESS and any at all after, gives back the address it was made from |
| Stun.PaddedToFour | src/webrtc/common.rs:801 | Values are skipped up to the next multiple of four |
| Stun.HeaderIsResponse | src/webrtc/common.rs:761-767 | The header test passes exactly binding success responses with the magic cookie and this transaction |
| Stun.OneTransaction | src/webrtc/common.rs:759-804 | No packet yields an address for two transactions |
| Stun.RestIsIgnored | src/webrtc/common.rs:769-770 | Bytes after the announced attributes change nothing |
| Stun.XorSample | src/webrtc/common.rs:782-795 | The address bytes of the IPv4 example in section 2.2 of RFC 5769 |
| Stun.WalkReads | src/webrtc/common.rs:771-801 | The walk skips any padded attributes and decodes the first mapped address |
| Stun.WalkFinds | src/webrtc/common.rs:771-801 | Conversely, whatever the walk returns was preceded by such attributes |
| SendGate.NoLostWakeup | src/webrtc/common.rs:443-459 | In every interleaving of the worker with any number of senders: whenever the worker owes no notification, a sender that is parked and not yet woken is parked on an open channel with sending disallowed |
| SendGate.ParkedSenderDrains | src/webrtc/common.rs:840-850 | Once the gate opens or the channel closes and the worker has notified, a parked sender can on its own get to send or be refused |
| SendGate.BufferLowReleases | src/webrtc/common.rs:453-459 | In every reachable state with an idle worker and an open channel, the buffer running low lets a parked sender go on and hand its data over |
| SendGate.CloseReleases | src/webrtc/common.rs:443-448 | The same when the channel closes or the worker stops: a parked sender is refused |
| SendGate.BufferHighHolds | src/webrtc/common.rs:449-453 | After the buffer runs high a sender that starts parks, and nothing but the next notification lets it move |
| SendGate.ParkAndSend | src/webrtc/common.rs:840-864 | With any number of senders some run has one of them park, send, and start over |
| SendGate.PassedMeansOpen | src/webrtc/common.rs:840-850 | Data goes to the worker only after the channel and then the gate were seen open |
| SendGate.StepKeeps | src/webrtc/common.rs:583-586 | Every atomic step of worker and senders keeps the gate invariant |
| Pin.ComputeChecksum | src/crypto/pin.rs:90-99 | The loop computes the weighted sum modulo 32, or the zero character for data outside the alphabet |
| Pin.ZerosSum | src/crypto/pin.rs:90-99 | Data of zeros only has checksum zero, for any length |
| Pin.KnownPin | src/crypto/pin.rs:173-184 | ABCDE0123Y is valid, and one substitution, one transposition and one omission of it are not |
| Pin.SubstitutionChangesChecksum | src/crypto/pin.rs:84-99 | Replacing any one data character by another changes the checksum, for data of any length |
| Pin.SwapEscapesChecksum | src/crypto/pin.rs:90-99 | Swapping data positions i < j with values a and b goes unnoticed if and only if 16 divides (j - i)(a - b) |
| Pin.OneWrongCharacterIsRefused | src/crypto/pin.rs:173-184 | A valid PIN with any one character replaced by any other, the checksum and foreign characters included, is refused |
| Pin.OneLostCharacterIsDetermined | src/crypto/pin.rs:173-184 | If one character of a PIN is missing, whichever, exactly one makes it valid, provided the others are in the alphabet, and none otherwise |
| Pin.FittingData | src/crypto/pin.rs:84-99 | Every checksum can be reached by choosing any one data character, for data of any length |
| Pin.NeighboursSwapped | src/crypto/pin.rs:173-184 | Two different neighbouring data characters in the wrong order are let through only if they are 16 places apart in the alphabet |
| Pin.GeneratePin | src/crypto/pin.rs:103-125 | One random fill always suffices, a generator failure is passed on, and the PIN is valid with data character i chosen by byte i modulo 32 |
| Pin.EverySymbolEquallyLikely | src/crypto/pin.rs:101-119 | No modulo bias: a symbol comes from the bytes that are its value modulo 32 |
| Pin.ShownPinReadsBack | src/crypto/pin.rs:164-170 | Typing a PIN as it is displayed gives the PIN |
| Pin.FormatWhole | src/crypto/pin.rs:164-170 | A whole PIN is shown as five characters, a dash and five characters |
| Pin.FormatShape | src/crypto/pin.rs:164-170 | In any text shown, every sixth character is a dash and the others are the text in order |
| Pin.KeptCharacters | src/crypto/pin.rs:141-151 | Exactly the ASCII characters that are no separators, lower-case letters or look-alikes stay as typed, foreign ones among them |
| Pin.NormalizeUndoesGrouping | src/crypto/pin.rs:132-170 | Grouping adds nothing that normalizing keeps, for any text |
| Pin.ReadsExactlySpellings | src/crypto/pin.rs:132-151 | A text is read as a given PIN if and only if it spells it: look-alikes in either case, with separators and characters outside ASCII strewn in |

## Left out

- Ss03.DecodeWindow: whether two neighbouring buckets ever have seeds 0xE4C37601 apart is not decided, so the outcome in
  the next bucket is given for both cases.
- Pin.FormatPin: on characters. The source groups bytes and drops a group that is not UTF-8; its callers pass ASCII only.
- Walk.Entries.CollectDir: children are taken in any order. The source sorts them, which affects only which of several
  failures is reported.
- Walk.PlanEntries: inputs are given by the name they go by and where following them ends. The order of the entries and
  the time stamp in the archive name are not modelled, nor are files that change during the walk.
- RunReceiver.Run: a failing operation on the part file has no partial effect, and an existing destination is replaced.
- EndToEnd.AllOrNothing: starts once the part file has been created and sized; `RunReceiver.Run` covers failures of that.
- RunReceiver.PartPath: a destination whose extension is not UTF-8 gets another part name in the source.
- PinTime.Expiration: in unbounded arithmetic. The source's u64 product wraps for buckets millions of years away.
- ClaimConfirm.ConfirmMeansAgreement: agreement on the receiver's Nostr identity is not stated, since the sealed claim does not carry it. Random
  nonces and keys are distinct by construction, and hashes, signatures and encryption are symbolic.
- Timeouts are nondeterministic failures, clocks are inputs; progress reports are left out.
- `buffered_amount` polling in the sender is left out: it always reads zero, and the real gate is `SendGate`.
- The insides of AES-GCM, P-256, HKDF, PBKDF2, DEFLATE, JSON, base64 and ZIP.
- Relay client, publish retries, UDP sockets, ICE gathering, SDP edits and the peer connection.
- The terminal interface, argument parsing, name formatting and the install scripts.
