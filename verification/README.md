# Proofs about the P2S card network

This project models the parts of the P2S node, its tools and its verifier whose correctness is
not visible in any one function, and proves what they keep over whole runs. It is written in
Dafny 4.11; `dafny verify dfyconfig.toml` checks all of it.

- **The replicated card store** (`StoreSpec`, `StoreRuns`, `StoreDisk`, `Network`, `RecordStore`).
  A node keeps a last-writer-wins map from address to signed card, a cache of sequence numbers, a
  capacity limit and a disk copy. `RecordStore.CardRecordStore` is the class with its fields; each
  of its methods is proved equal to a step of the store as a value, and the theorems are about runs
  of such steps: the invariant, the closed form of what is held, convergence of two stores fed the
  same records, what a restart rebuilds from disk, and agreement of a network of nodes that restart
  and that gossip over a lossy, repeating and reordering network.
- **The event loop** (`EventLoop`, `Replies`, `Node`). PUT and GET commands become store operations and
  Kademlia queries, whose reply channels wait in a map until an event answers them. Kademlia is
  the environment: it chooses query ids, reports on them, and may also put and remove records.
- **Publisher to consumer** (`CardOps`, `EndToEnd`). Signing, admission, fetching and the
  consumer's check, put together.
- **The codec** (`Octets`, `Cbor`, `Wire`, `Schema`, `Codec`). The CBOR subset of the four signed types,
  with field names as text keys in declaration order and `label` left out when absent.
- **The sanitiser and the prompt** (`Text`, `Strip`, `Sanitize`, `Replacing`, `Boundary`, `Harden`,
  `Prompt`). The eight passes over an untrusted page, as loops over cursors, the check of a card's
  label, and the prompt that embeds the sanitised page between two delimiters.
- **The rate limiter** (`RateLimit`, `Handlers`, `HttpApi`). The limiter as a class, any
  interleaving of publish handlers over it, and the batch handler's loop with its counters.
- **Mandates** (`Mandates`). Issue, renewal and verification at an instant.

The hash, the signature scheme and the decoder of stored bytes are functions in `CardOps.Env`. What
is assumed of them is a named predicate in the theorems that need it: `SignatureLaw` (a signature
made with a key verifies under it, section 5.1 of RFC 8032) and `DecoderLaw` (decoding inverts
encoding), which the modelled codec is proved to satisfy. No theorem needs the hash to be free of
collisions. Disk contents, disk failures, query ids, clocks and the outcomes of sent commands are
parameters over which every theorem quantifies.

Where the code does not keep what one might expect of it, the exact condition is proved, both
ways, for all inputs:

- Stores with room that are fed the same acceptable records in any order always agree if and only
  if at no address two different values tie for the greatest sequence number (`ConvergesIff`). A
  tie lasts until something with a greater number is put there (`ConflictDiverges`).
- A record that memory no longer holds comes back after a restart if and only if its last removal
  failed on disk while an acceptable entry was there, or such an entry was there from the start,
  unread, and never removed (`RemovedComesBackIff`). A restarted store fits its capacity if and only
  if what is held and on disk and what is so left over fit together (`RestartFitsIff`); a load does
  not look at the capacity, and a disk can be checked before it is opened (`LoadFitsIff`). No run by
  itself goes beyond the capacity, or beyond what the start held if that was more (`RunBounded`).
- A held value survives a restart if and only if the last put that the store took at its address
  reached the disk or found that value there already, or none was taken and it was on disk from the
  start (`HeldComesBackIff`). Where the start's disk agreed and removals of the address reach it, that
  is: if and only if that last put reached the disk or none was taken, and a revocation survives with
  it (`HeldSurvivesRestartIff`, `CardSurvivesRestartIff`). The node answers without a look at the
  outcome of the write.
- Every command stays accounted for if and only if no query starts under an id still pending
  (`RepliesConserved`), and puts and gets are answered in kind if and only if each progress event
  that answers an open query reports on a put exactly when a put opened it
  (`RepliesFitIffKindsMatch`): the handler checks neither.
- PutOk means that the local store accepted the put (`PutOkIffAccepted`): a failed DHT put is
  answered the same, and so is a put that the store ignores because its number is not greater.
  `ReadsOwnPutIff` says exactly when a later get returns the value that was put.
- The limit of cards per domain holds if and only if the handlers of a domain are serialised and no
  batch records for it (`LimitHoldsIffSerialised`, `BatchesUnlimited`).
- A batch's rejections equal its failures if and only if no verified card went unsent
  (`RejectionsAreFailuresIff`).
- The prompt holds each delimiter once if and only if no field of the card and no part of the
  content holds any (`DelimitersOnceIff`). The sanitiser sees to the content; hardening a label
  does not see to the fields, since a delimiter is itself a hardened label
  (`HardenedLabelMayHoldDelimiter`). The single publish handler, besides, checks the label by
  hardening it but stores it as it came. Each claim stands alone on the line of its own name if and
  only if no field holds a newline (`ClaimsReadBackIff`).

The comments in `proto/src/serialize.rs:6-9` and `proto/src/card.rs:11` speak of sorted map keys and
of integer keys. The code has neither: the derives emit text keys in declaration order, and that is
what is modelled. Determinism rests on `EncodingIsShortest` instead.

## Model

| member | source | states |
|---|---|---|
| Cbor.HeadRoundTrip | proto/src/serialize.rs:10-21 | A CBOR head followed by anything is read back, with the rest left unread |
| Cbor.HeadIsShortest | proto/src/serialize.rs:4-15 | Among all heads that read as the same number the written one is the unique shortest |
| Wire.HeadIs | proto/src/serialize.rs:10-15 | The bytes of a head: major type above, and the argument below it or in the one, two, four or eight bytes behind it, most significant first |
| Cbor.ItemRoundTrip | proto/src/serialize.rs:10-21 | Every item, nested maps included, followed by any bytes is read back with those bytes left |
| Wire.EncodingIs | proto/src/serialize.rs:10-15 | What is written: a head of major type 0, 2, 3 or 5 with the number or length, then the string or the entries; null is one byte |
| Wire.EntriesFollow | proto/src/serialize.rs:10-15 | Entries follow one another in the order of the map, each its key and then its value |
| Wire.StandardStrings | proto/src/serialize.rs:10-15 | Strings, null and maps are written as in the examples of Appendix A of RFC 8949 |
| Wire.AnyHeadReads | proto/src/serialize.rs:18-21 | A number or string is read behind any head that announces it, also one longer than the writer uses |
| Cbor.EncodingPrefixFree | proto/src/serialize.rs:10-21 | Two encodings that begin a common stream are of the same item |
| Cbor.EncodingIsShortest | proto/src/serialize.rs:4-15 | The writer's output is the unique shortest byte string that reads as the item: the encoding is deterministic although longer heads are readable |
| Octets.Utf8Iff | proto/src/serialize.rs:18-21 | The texts that can be read are exactly the encodings of sequences of Unicode scalar values |
| Schema.NameRoundTrip | proto/src/card.rs:14-48 | Field names written as text keys are recognised, and no two are confused |
| Schema.FindUnique | proto/src/card.rs:14-48 | A field that occurs once is found wherever it stands in the map |
| Schema.FindOnceIff | proto/src/card.rs:14-48 | A lookup finds a value if and only if exactly one field has the name and holds it |
| Schema.KnownFieldsAround | proto/src/card.rs:14-48 | An entry counts if and only if its key is the bytes of a field name, as text or byte string; others are skipped, wherever they stand |
| Schema.CardEntries | proto/src/card.rs:5-38 | The map of a card has the keys `pubkey`, `seq`, `status`, `endpoint`, `manifest_hash`, `domain` in this order with these values, and `label` last exactly if there is one; the status is the word `active` or `revoked` |
| Schema.SignedCardEntries | proto/src/card.rs:41-48 | A signed card is a map of `record` and `sig`, in this order |
| Schema.MandateEntries | proto/src/mandate.rs:4-15 | A mandate is a map of `node_pubkey`, `issued_at` and `expires_at`, in this order |
| Schema.SignedMandateEntries | proto/src/mandate.rs:17-25 | A signed mandate is a map of `record` and `validator_sig`, in this order |
| Schema.CardFromIff | proto/src/card.rs:13-38 | A map is read as a card if and only if it holds each of the six fields exactly once and the label at most once, in any order and among any unknown keys; a null label is none |
| Schema.CardItemRoundTrip | proto/src/card.rs:14-38 | The map that `CardEntries` describes, with six fields or with seven, is read back as that card |
| Schema.MandateItemRoundTrip | proto/src/mandate.rs:5-15 | A mandate's map is read back as that mandate |
| Codec.CardRoundTrip | proto/src/card.rs:13-38 | Decoding an encoded card followed by any bytes gives the card and leaves the bytes |
| Codec.CardFirstByte | proto/src/card.rs:36-37 | The bytes of a card start with 0xA6 without a label and with 0xA7 with one |
| Codec.OtherFirstBytes | proto/src/mandate.rs:4-25 | Those of signed cards and signed mandates start with 0xA2, of mandates with 0xA3 |
| Codec.SignedCardRoundTrip | proto/src/card.rs:41-48 | The same for signed cards, also for the decoder that ignores what follows |
| Codec.MandateRoundTrip | proto/src/mandate.rs:4-15 | The same for mandate records |
| Codec.SignedMandateRoundTrip | proto/src/mandate.rs:17-25 | The same for signed mandates |
| Codec.CardEncodingInjective | card/src/ops.rs:29-36 | Whoever signs a card's bytes signs that card only |
| Codec.SignedCardEncodingInjective | proto/src/serialize.rs:10-15 | Stored bytes determine the signed card |
| Codec.MandateEncodingInjective | validator/src/issuer.rs:37-43 | Whoever signs a mandate's bytes signs that mandate only |
| Codec.CardAndMandateBytesDisjoint | proto/src/serialize.rs:10-15 | No card record and mandate record share an encoding, so a signature on one is never one on the other |
| Codec.Writer.WriteItem | proto/src/serialize.rs:10-15 | The writer appends exactly the encoding to its buffer |
| Codec.CanonicalEncodeSignedCard | proto/src/serialize.rs:10-15 | The buffer is filled, item by item, with exactly the bytes that `EncodingIs` and the entry lists determine, and decodes to the card |
| Codec.CanonicalEncodeMandate | proto/src/serialize.rs:10-15 | The same for mandates |
| CardOps.CodecIsDecoder | proto/src/serialize.rs:18-21 | The modelled decoder inverts the encoder on every signed card |
| CardOps.SignedCardVerifies | card/src/ops.rs:29-61 | A card signed with the key it names keeps its record and verifies |
| CardOps.FetchedErrorIff | consumer/src/resolve.rs:9-25 | Which of the three errors a consumer gets, for every card: the signature is judged before the address and the address before the status |
| RecordStore.AdmittedIffGenuine | node/src/record_store.rs:111-128 | A value is admitted exactly if it decodes to a card with a well-formed key, a 64-byte signature by that key on its record's canonical bytes, and the key's hash as its address; the seq is that card's |
| RecordStore.CardRecordStore.constructor | node/src/record_store.rs:23-31 | A new store is empty, without a disk |
| RecordStore.CardRecordStore.WithPersistence | node/src/record_store.rs:33-46 | An opened store is what loading its disk yields, and satisfies the invariant |
| RecordStore.CardRecordStore.LoadFromDisk | node/src/record_store.rs:61-97 | The loop over the disk adds exactly what the loading function adds |
| RecordStore.CardRecordStore.SetTrustWeight | node/src/record_store.rs:48-55 | Sets one weight in memory and, if the write succeeds, on disk; keeps the invariant |
| RecordStore.CardRecordStore.Put | node/src/record_store.rs:139-157 | Refusals in order of check, replacement only by a greater seq, the disk write, the invariant and the capacity bound |
| RecordStore.CardRecordStore.Remove | node/src/record_store.rs:159-163 | Removes record, cached seq and, if the write succeeds, the disk entry; keeps the invariant |
| StoreSpec.StepKeepsInvariant | node/src/record_store.rs:131-163 | One operation keeps records and seq cache in step, every seq that of the bytes, and the capacity |
| StoreSpec.RunKeepsInvariant | node/src/record_store.rs:10-20 | From a coherent start every reachable store is coherent, and within its capacity if the start was |
| StoreSpec.RunBounded | node/src/record_store.rs:139-142 | From any start no run goes beyond the capacity, or beyond the start's size if that was more |
| StoreSpec.PutResultIff | node/src/record_store.rs:139-145 | Which answer a put gets: MaxRecords exactly at a full store for an address it does not hold, whatever the value; otherwise ValueTooLarge exactly for an inadmissible value |
| StoreSpec.UpdateNeverRefusedForCapacity | node/src/record_store.rs:139-142 | An update to a held address is never refused for capacity, and accepted exactly if admissible |
| StoreSpec.PutTwice | node/src/record_store.rs:139-157 | Putting a record again changes nothing |
| StoreRuns.HeldIsFirstMax | node/src/record_store.rs:139-157 | After any run within capacity and without removes of an address, the record held is the first of those with the maximum seq put there |
| StoreRuns.SeqNeverDecreases | node/src/record_store.rs:146-150 | A held seq never decreases along a run |
| StoreRuns.ReplacedOnlyByGreaterSeq | node/src/record_store.rs:146-155 | Along any run a held record is replaced only by an admissible put of a greater seq |
| StoreRuns.ReplacedIff | node/src/record_store.rs:139-157 | Along any run without removes of it, a held record is replaced if and only if an admissible value of greater seq is put at its address |
| StoreRuns.RemovedStaysAbsent | node/src/record_store.rs:159-163 | In any run a removed address stays unheld until something admissible is put there |
| StoreRuns.WeightIsLastSet | node/src/record_store.rs:48-55 | After any run the weight of an address in memory is the one set last |
| StoreRuns.WeightOnDiskIsLastWritten | node/src/record_store.rs:48-55 | The weight on disk is the one whose write succeeded last |
| StoreRuns.WeightUntouched | node/src/record_store.rs:48-55 | A weight that is never set is untouched by puts, removals and other weights, in memory and on disk |
| StoreRuns.ConvergenceAt | node/src/record_store.rs:139-157 | Two stores fed the same admissible records agree at each address that is not removed and whose greatest seq belongs to one value |
| StoreRuns.Convergence | node/src/record_store.rs:111-157 | Order, repetitions and inadmissible records do not matter: equal sets of admissible records give equal contents, if no two values tie for the greatest seq of an address and all fit |
| StoreRuns.ConvergesIff | node/src/record_store.rs:139-157 | All runs that feed a set of admissible records to two stores with room end equal if and only if no two values tie for the greatest seq of an address |
| StoreRuns.ConflictDiverges | node/src/record_store.rs:146-150 | Stores that first got different values of one seq keep them, and so differ, whatever each is fed afterwards, until something of greater seq is put there |
| Network.NetRunKeepsCoherent | node/src/record_store.rs:61-157 | In every reachable state of the network, however small its stores and whatever restarts lose, each is coherent and holds only published records |
| Network.NetRunKeepsInv | node/src/record_store.rs:61-157 | If all addresses fit and no restart sets its node back, each published admissible record is moreover covered somewhere |
| Network.QuiescentNodesHoldNewest | node/src/record_store.rs:139-157 | When no node can teach another anything, every node holds a newest admissible value at exactly the addresses for which any was published, ties and inadmissible records or not |
| Network.QuiescentNodesAgree | node/src/record_store.rs:139-157 | Without ties among admissible values, whatever inadmissible ones were published, every node of a quiescent network holds exactly the newest admissible value of each address |
| Network.QuiescentNodesEqual | node/src/record_store.rs:139-157 | Hence any two nodes of a quiescent network hold the same values |
| Network.QuiescenceReachable | node/src/record_store.rs:139-157 | From every reachable state a finite exchange of forwarded and delivered records makes the network quiescent |
| Network.AgreementReachable | node/src/record_store.rs:61-157 | Whatever was lost so far, such an exchange leaves every node with exactly the newest admissible values, if all fit, there are no ties and no restart set its node back |
| Network.DurableRunRecovers | node/src/record_store.rs:48-163 | When writes succeed and restarts can read their disks, no restart sets its node back, in any run |
| Network.AgreementSurvivesRestarts | node/src/record_store.rs:33-157 | With such writes and disks nodes may restart at any time and as often as they like, and agreement stays within reach |
| Network.QuiescentSeqsEqual | node/src/record_store.rs:139-157 | Whatever restarts lost, ties or not: all nodes of a quiescent network with room hold the same addresses with the same seqs |
| Network.ChangesAreBounded | node/src/record_store.rs:144-155 | A store, of whatever capacity, changes at most once per admissible record ever published, and as often again per restart, however messages repeat |
| StoreDisk.LoadIsLoaded | node/src/record_store.rs:61-97 | Loading yields exactly the admissible disk entries and the eight-byte weights, whatever the order of iteration |
| StoreDisk.LoadIsCoherent | node/src/record_store.rs:61-81 | Even if entries cannot be read, only admissible records are loaded, with their seqs |
| StoreDisk.LoadSkipsUnreadable | node/src/record_store.rs:64-81 | An entry that cannot be read costs only itself: held after loading are exactly the addresses of the admissible entries that could be read |
| StoreDisk.WeightsSkipUnreadable | node/src/record_store.rs:83-95 | The same for weights, of which those of eight bytes are loaded |
| StoreDisk.RunKeepsDiskAgreement | node/src/record_store.rs:99-109 | With successful writes the admissible disk entries stay exactly the records in memory |
| StoreDisk.RestartRestoresMemory | node/src/record_store.rs:61-163 | From any disk contents, after any run with successful writes, a restart rebuilds values, seq cache and weights |
| StoreDisk.RunKeepsDiskLag | node/src/record_store.rs:99-109 | With puts that may not reach the disk, the disk stays at or behind memory |
| StoreDisk.RestartAfterFailedWrites | node/src/record_store.rs:61-109 | If removals reach the disk and the start fits, a restart yields only admissible records, none newer than memory was, and fits |
| StoreDisk.DiskFollowsLastWrite | node/src/record_store.rs:99-109 | After any run with any failed writes the disk holds at a key what the last successful write there left: the put value, nothing after a removal, or what it held at the start |
| StoreDisk.RestartHoldsIff | node/src/record_store.rs:61-163 | From any start and with any failed writes: an address is held after a restart if and only if its last write was a put, or it was never written and on disk from the start; the value is the one so written |
| StoreDisk.RemovedComesBackIff | node/src/record_store.rs:61-163 | From any start and with any failed writes: an address absent from memory is held after a restart if and only if its last removal failed on disk while an admissible entry was there, or such an entry was there from the start and never removed |
| StoreDisk.HeldComesBackIff | node/src/record_store.rs:61-163 | From any coherent start and with any failed writes: a held value is held after a restart if and only if the last put taken there reached the disk or found that value on it, or none was taken and it was on disk from the start |
| StoreDisk.HeldSurvivesRestartIff | node/src/record_store.rs:99-103 | If removals of an address reach the disk, what is held there comes back if and only if the last put taken there reached the disk or none was taken; otherwise what comes back is absent or strictly older |
| StoreDisk.LoadFitsIff | node/src/record_store.rs:61-81 | A loaded store holds exactly the addresses with admissible disk entries, and fits if and only if these do |
| StoreDisk.RestartFitsIff | node/src/record_store.rs:61-163 | From any start and with any failed writes: a restarted store fits if and only if the held addresses on disk and the absent ones left there do together |
| StoreDisk.FitsWithLeftOversIff | node/src/record_store.rs:61-163 | If puts reach the disk: it fits if and only if the records held and those left over do together |
| StoreDisk.FailedRemovalComesBack | node/src/record_store.rs:61-81 | The smallest case in which it does not fit |
| EventLoop.RunAnswersAtMostOnce | node/src/event_loop.rs:79-133 | No channel is answered twice, waits twice, or is answered and waits, in any run |
| EventLoop.RepliesConserved | node/src/event_loop.rs:79-183 | Every command taken is answered once or pending once, if and only if no query id collides with a pending one |
| EventLoop.PendingIsOpener | node/src/event_loop.rs:154-180 | In every run a query is pending exactly if the trace holds a command that opened it and no answering event since, and its channel is that command's |
| EventLoop.RepliesFitIffKindsMatch | node/src/event_loop.rs:82-118 | Puts get PutOk or Error and gets Found or NotFound, if and only if every progress event that answers an open query reports on a put exactly when a put opened it |
| EventLoop.RunAnswersPutsTruthfully | node/src/event_loop.rs:144-168 | In every run an accepted put is never answered an error and a refused one only the store's error |
| EventLoop.PutOkIffAccepted | node/src/event_loop.rs:105-118 | An answer is PutOk exactly if it goes to a put that the local store accepted |
| Replies.RepliesExactly | node/src/event_loop.rs:79-183 | In every run a reply is sent if and only if some command is answered so as it comes, or some event concludes so the query that the command of that channel opened |
| Replies.GetAnsweredIff | node/src/event_loop.rs:82-103 | A get is answered Found(v) if and only if the store held v when it came or an event concluded its query with v, NotFound if and only if an event concluded it without a record or with a failure, and nothing else |
| Replies.StoredCountsAccepted | node/src/event_loop.rs:144-154 | The counter of stored records is the number of accepted puts, also those the store ignores |
| EventLoop.HeldBetween | node/src/event_loop.rs:135-183 | Between two points of a run without removes of an address, what is held there only gets newer |
| EventLoop.ReadYourWrites | node/src/event_loop.rs:144-176 | After an accepted put of seq n every later get is answered at once with seq at least n |
| EventLoop.MonotonicReads | node/src/event_loop.rs:170-176 | Answers from the store never go down in seq |
| EventLoop.ReadsOwnPutIff | node/src/event_loop.rs:144-176 | After an accepted put a later get returns that very value if and only if the put took effect in the store and nothing of greater seq was put there since |
| Node.NodeState.constructor | node/src/node_state.rs:9-20 | A new node has nothing pending and has sent nothing |
| Node.NodeState.HandleCommand | node/src/event_loop.rs:135-183 | The handler performs the loop's step on store, pending map, replies and counter, in each branch |
| Node.NodeState.HandleKadEvent | node/src/event_loop.rs:79-133 | The handler performs the loop's step, whose replies `RepliesExactly` determines, on the pending map and the replies |
| EndToEnd.ConsumerTrustsNoNode | consumer/src/resolve.rs:9-25 | Whatever a node serves, the consumer's check passes exactly if it is an authentic Active card under the hash of its key, one that every node would admit |
| EndToEnd.HeldCardPassesIffActive | consumer/src/resolve.rs:9-25 | What a coherent store holds passes the consumer's check exactly if it is Active, and is otherwise refused as revoked |
| EndToEnd.PublishThenFetch | card/src/ops.rs:29-70 | A card signed, encoded and put is fetched and decoded as the same card, and passes exactly if Active |
| EndToEnd.RevocationLasts | consumer/src/resolve.rs:20-22 | After a revoked card of seq n every fetch is refused as revoked until a genuine card of greater seq is put |
| EndToEnd.UnchangedIff | node/src/record_store.rs:146-155 | What is held at an address stays if and only if no genuine card of greater seq is put there |
| EndToEnd.FetchSurvivesRestart | node/src/record_store.rs:33-46 | With successful writes a consumer sees no difference after a restart, at any address |
| EndToEnd.CardSurvivesRestartIff | node/src/record_store.rs:99-103 | With puts that may fail on disk, a consumer finds the same card after a restart, and so the same revocation, if and only if the last put taken at the address reached the disk or none was taken |
| Text.ScanCharacterised | verifier/src/sanitize.rs:52-110 | A scan yields the one text left by cutting out ordered, disjoint spans that begin at each first finding and end at its jump, with no finding kept |
| Text.ScanDeletes | verifier/src/sanitize.rs:20-110 | A scan yields a subsequence of its input |
| Text.DeletesIff | verifier/src/sanitize.rs:20-137 | Deleting means: each character kept stands at its own position in the original, in the same order |
| Text.CountIsPositions | verifier/src/agent.rs:56-70 | A count of occurrences is the number of positions at which the pattern stands |
| Strip.StripHtmlComments | verifier/src/sanitize.rs:20-35 | The cursor loop yields the characterised cutting for comments |
| Strip.StripTagPair | verifier/src/sanitize.rs:52-71 | The loop over text and lowercase copy keeps both cursors in step and yields the characterised cutting |
| Strip.StripPairCharacterised | verifier/src/sanitize.rs:52-71 | Over positions: the result is the text without spans that lie apart, each from an opener to the end of the first closer from the opener's own start, or to the end of the text, and no opener starts outside them |
| Strip.PairSpanIff | verifier/src/sanitize.rs:52-71 | At which position a span starts and at which it ends, for every text and pair of delimiters |
| Strip.StripPairIdentity | verifier/src/sanitize.rs:20-71 | Nothing is deleted if and only if no opener occurs |
| Strip.ShortestComment | verifier/src/sanitize.rs:24-29 | `<!-->` is one whole comment |
| Strip.StripElementsWithStyle | verifier/src/sanitize.rs:73-110 | The index loop terminates with all slices in bounds and yields the text that `StripHidingCharacterised` describes |
| Strip.StripHidingCharacterised | verifier/src/sanitize.rs:73-110 | Over positions: the result is the text without spans that lie apart, each a hidden element, and none starts outside them |
| Strip.HidingSpanIff | verifier/src/sanitize.rs:78-101 | A hidden element starts at a tag up to its first `>` that holds `style=` and the pattern, and ends at the end of the first `</name>` behind that tag, or with the tag if there is none; the name is the longest run after `<` free of white space and `>`, or empty if nothing ends it |
| Strip.ClosedElementEnds | verifier/src/sanitize.rs:90-94 | If the closing tag of that name first follows at j, the jump goes to j + the length of the name + 3 |
| Strip.UnclosedElementEnds | verifier/src/sanitize.rs:95-98 | If it follows nowhere, the jump goes to the end of the tag |
| Strip.StripHidingIdentity | verifier/src/sanitize.rs:78-101 | Nothing is deleted if and only if there is no such tag |
| Sanitize.StripSuspiciousMetaTags | verifier/src/sanitize.rs:112-137 | The two-cursor loop yields the text that `StripMetaCharacterised` describes |
| Sanitize.StripMetaCharacterised | verifier/src/sanitize.rs:112-137 | The closed meta tags, each from `<meta` to the first `>`, lie apart and are determined by the text; the pass cuts out exactly those that hold `content=` and have more than 200 characters |
| Sanitize.StripMetaIdentity | verifier/src/sanitize.rs:112-137 | Nothing is deleted if and only if none of the meta tags is such |
| Sanitize.StripStyleHiddenElements | verifier/src/sanitize.rs:41-50 | Style elements first, then the eight patterns in order |
| Sanitize.InvisibleExact | verifier/src/sanitize.rs:139-157 | Every visible character is kept as often as it occurs |
| Sanitize.StrippedInSteps | verifier/src/sanitize.rs:8-12 | The five deleting passes in their order, each said over positions: comments, style elements, the eight hiding patterns, script elements, meta tags, invisible characters |
| Sanitize.StripAllDeletes | verifier/src/sanitize.rs:8-12 | The first five passes together only delete characters |
| Replacing.ReplaceExchanges | verifier/src/sanitize.rs:159-162 | Replacing joins with the replacement exactly the pattern-free pieces that the pattern joined |
| Replacing.ReplaceReflects | verifier/src/sanitize.rs:159-162 | Replacing brings about no occurrence of a text that the replacement cannot meet, and leaves none of the pattern |
| Boundary.EscapeRemovesTags | verifier/src/sanitize.rs:159-162 | Neither delimiter occurs in an escaped text |
| Boundary.EscapeIdentity | verifier/src/sanitize.rs:159-162 | A text without delimiters is not changed by escaping |
| Boundary.CollapseWhitespace | verifier/src/sanitize.rs:164-180 | The loop computes the collapsed text |
| Boundary.CollapseReflects | verifier/src/sanitize.rs:164-180 | Collapsing brings about no occurrence of anything without white space |
| Boundary.CollapseCollapses | verifier/src/sanitize.rs:164-180 | What is left of white space is single spaces |
| Boundary.CollapseKeepsWords | verifier/src/sanitize.rs:164-180 | The sequence of words is kept |
| Boundary.CollapseIs | verifier/src/sanitize.rs:164-180 | Hence collapsing leaves the words in single spaces, and white space at either end exactly where there was some |
| Boundary.SanitizeContent | verifier/src/sanitize.rs:5-18 | The eight passes in order, as `SanitizedInSteps` says them over positions; no delimiter and at most 50,020 characters in the result |
| Boundary.SanitizedInSteps | verifier/src/sanitize.rs:5-18 | For every raw text the result arises by the deleting passes, then by exchanging each closing delimiter and then each opening one for its escaped form, then by collapsing white space, and is cut after 50,000 characters |
| Boundary.SanitizedIsTagFree | verifier/src/sanitize.rs:5-18 | For every raw text neither delimiter occurs in the result |
| Boundary.SanitizedLength | verifier/src/sanitize.rs:182-188 | The result is the collapsed text or its first 50,000 characters and the marker |
| Boundary.TailIdempotent | verifier/src/sanitize.rs:12-14 | Stripping invisible characters, escaping and collapsing is idempotent as a whole |
| Boundary.StrippedUnchangedIff | verifier/src/sanitize.rs:8-12 | The five deleting passes leave a text alone if and only if it has no comment, style or script opener, no hiding tag, no suspicious meta tag and nothing invisible |
| Boundary.NothingCancelsOut | verifier/src/sanitize.rs:12-14 | After any deletions, escaping and collapsing give back the original only if nothing was deleted, escaped or collapsed |
| Boundary.UnchangedIffClean | verifier/src/sanitize.rs:5-18 | A text of at most 50,000 characters comes through the whole sanitiser unchanged if and only if no pass finds anything in it |
| Boundary.LongUnchangedIsMarked | verifier/src/sanitize.rs:182-188 | A longer text is unchanged only if it has 50,020 characters and ends in the marker itself |
| Prompt.DelimitersCounted | verifier/src/agent.rs:56-70 | Each delimiter occurs in the prompt once, and as often as in the fields and the content |
| Prompt.DelimitersOnceIff | verifier/src/agent.rs:56-70 | Each occurs exactly once if and only if fields and content hold none |
| Prompt.ContentCutOutIff | verifier/src/agent.rs:56-70 | For any fields and content: cutting at the first opening delimiter and the first closing one after it cuts out exactly the content, where the prompt put it, if and only if no field holds the opening delimiter and the content no closing one |
| Prompt.PromptIsolatesContent | verifier/src/agent.rs:36-73 | For every raw page and every card without delimiters in its fields: one of each delimiter, and between them the sanitised text unchanged |
| Prompt.ClaimsReadBackIff | verifier/src/agent.rs:56-64 | Endpoint, domain and label are each all of the line that starts with their own name if and only if none of them holds a newline |
| Prompt.HardenedLabelMayHoldDelimiter | verifier/src/agent.rs:56-70 | Either delimiter passes label hardening unchanged, and as a label occurs in the prompt a second time |
| Harden.HardenYieldsHardened | verifier/src/harden.rs:21-42 | What hardening yields has 1 to 64 characters, no control and no white space at its ends, and arises by deleting only |
| Harden.OthersKept | verifier/src/harden.rs:26-29 | What is left of a label without its controls is every other character, in order |
| Harden.HardenedIs | verifier/src/harden.rs:21-42 | For every label: refused for a line break anywhere, for nothing or for more than 64 characters left between the outer white space, in this order; otherwise what is left there |
| Harden.PassesUnchangedIff | verifier/src/harden.rs:21-42 | Exactly such labels pass unchanged |
| Harden.HardenIdempotent | verifier/src/harden.rs:21-42 | Hardening twice is hardening once |
| RateLimit.RateLimiter.constructor | node/src/rate_limit.rs:27-34 | Ten cards, a minute, nothing recorded |
| RateLimit.RateLimiter.CheckDomain | node/src/rate_limit.rs:46-69 | The verdict on a domain, count before cooldown |
| RateLimit.RateLimiter.RecordPublish | node/src/rate_limit.rs:71-74 | Counts the publication and remembers its time, for that domain only |
| RateLimit.RateLimiter.RemoveCard | node/src/rate_limit.rs:76-80 | Lowers the count of a known domain, not below zero, and leaves its cooldown |
| RateLimit.WaitingClearsCooldown | node/src/rate_limit.rs:57-66 | Without a publish in between the cooldown is over exactly when the time left has passed; the reported seconds exceed it by at most one |
| RateLimit.CheckIff | node/src/rate_limit.rs:46-69 | Which verdict a domain gets with which numbers, for every state: the count is looked at before the cooldown, and the seconds are the time left, rounded up to the next full second above it |
| RateLimit.RecordTakesPlace | node/src/rate_limit.rs:71-74 | Recording takes one place and starts the cooldown of its domain, and changes no verdict on another |
| RateLimit.RemovalGivesBack | node/src/rate_limit.rs:76-80 | Any number of removals gives back as many places, never more than are taken, and no cooldown |
| Handlers.DomainsAreIndependent | node/src/rate_limit.rs:46-80 | In every interleaving a domain fares as if only its own events had happened |
| Handlers.CardsBounded | node/src/http_api.rs:103-183 | With at most k handlers of a domain in flight it has at most max - 1 + k cards, plus those recorded by batches |
| Handlers.BoundIsReached | node/src/http_api.rs:103-183 | That bound is attained, for every max and k from 1 on and every number of batch records |
| Handlers.LimitHoldsIffSerialised | node/src/rate_limit.rs:9-11 | Over all interleavings with at most k handlers in flight and b batch records, the limit per domain holds if and only if k is 1 and b is 0 |
| Handlers.BatchesUnlimited | node/src/http_api.rs:246-251 | Batches add any number of cards to a domain, whatever state they find it in |
| Handlers.PublicationsSpaced | node/src/rate_limit.rs:57-74 | A publication that passed the check and the k-th such after it lie at least a cooldown apart, in every interleaving and whatever batches record in between |
| Handlers.PublicationsInInterval | node/src/rate_limit.rs:57-74 | A closed interval of length L holds at most k * (L / cooldown + 1) publications of a domain, plus those that batches record within it |
| Handlers.SerialisedWindow | node/src/rate_limit.rs:57-74 | With serialised handlers gaps between checked publications are at least the cooldown, and an interval holds at most L / cooldown + 1 of them, batches adding only their own |
| Handlers.EveryRecordIsListed | node/src/rate_limit.rs:71-74 | Checked and batch publications together are exactly what the limiter counted, while no card is removed |
| Handlers.BooksBalance | node/src/http_api.rs:103-207 | In every interleaving the handlers in flight are those that passed less those that ended, and the cards counted are those published and recorded less those removed |
| HttpApi.HexRoundTrip | node/src/http_api.rs:223-225 | Decoding hexadecimal inverts encoding it |
| HttpApi.HexDecodeIff | node/src/http_api.rs:223-225 | Exactly the texts of two digits of either case for each byte, the high one first, are decoded, and to these bytes |
| HttpApi.HexEncodeIs | node/src/http_api.rs:252 | What is encoded is such a text with lowercase digits |
| HttpApi.CheckedIff | node/src/http_api.rs:223-237 | A request passes if and only if its three hexadecimal fields decode, its status is `active` or `revoked`, and the card of just these values is authentic; it is unverified if and only if only the last fails |
| HttpApi.OutcomeIff | node/src/http_api.rs:218-257 | What becomes of a request, for every card asked for and every answer of the loop |
| HttpApi.CommandsIff | node/src/http_api.rs:233-243 | Exactly the authentic cards are sent to the event loop, each under the hash of its key and as its canonical bytes |
| HttpApi.SentIsAdmissible | node/src/record_store.rs:139-145 | Whatever a store holds, it refuses what a batch sends only if it is full and does not hold the address |
| HttpApi.PublishOne | node/src/http_api.rs:218-258 | One request moves the counters and the limiter as its outcome says, in each branch |
| HttpApi.RunBatch | node/src/http_api.rs:210-261 | The loop: ok and fail add up to the requests, one result per success, counters and limiter after all requests |
| HttpApi.PublishBatch | node/src/http_api.rs:210-261 | The handler: outcomes, counters and limiter as above, every address in the results is that of an authentic card that was answered PutOk, and exactly the authentic cards were sent |
| HttpApi.PublishCheck | node/src/http_api.rs:103-116 | A handler joins those in flight exactly if the check allows it, otherwise one rejection is counted; the limiter is only read |
| HttpApi.PublishConclude | node/src/http_api.rs:178-207 | Only a PutOk is recorded, at the time of the answer, as the concurrent model's publish event; anything else is its abort event and a rejection |
| HttpApi.ResultsInOrder | node/src/http_api.rs:252-260 | The x-th result is the address of the x-th published request in order of submission, and none is missing |
| HttpApi.BatchCounters | node/src/http_api.rs:219-257 | For any outcomes, put_total grows by the requests, put_success by the successes, put_rejected by the failures less the unsent, and every parsed card's signature is counted once |
| HttpApi.RejectionsAreFailuresIff | node/src/http_api.rs:239-243 | Rejections are as many as failures if and only if no request was left unsent |
| HttpApi.BatchIsUnchecked | node/src/http_api.rs:246-251 | What a batch records is what the concurrent model does on unchecked records |
| Mandates.SearchKeys | validator/src/verifier.rs:40-46 | The search succeeds exactly if some trusted key verifies the signature |
| Mandates.AcceptedIff | validator/src/verifier.rs:24-63 | A mandate is accepted exactly if its 64-byte signature is by some trusted key and the instant lies within its window |
| Mandates.RefusedIff | validator/src/verifier.rs:24-63 | Which error is given with which numbers, for every mandate: the form of the signature first, then the key, then the time |
| Mandates.IssuedIff | validator/src/issuer.rs:25-50 | Issuing and renewing succeed exactly for keys of 32 bytes, else they report the length; what is issued names that operator, that time and a day later, and is signed as a whole |
| Mandates.OperatorsApart | validator/src/issuer.rs:31-43 | What is signed for one operator is never what is signed for another, whoever signs it and when |
| Mandates.AcceptedForADay | validator/src/issuer.rs:25-44 | A mandate issued to an operator at t by a trusted key names that operator and is accepted at exactly t to t + 86,400 s, with the right error before and after |
| Mandates.FreshAcceptedIff | validator/src/issuer.rs:30-35 | The bound of the row above is sharp: a fresh mandate is accepted at once if and only if its expiry fits 64 bits |
| Mandates.MoreKeysOnlyAccept | validator/src/verifier.rs:30-47 | More trusted keys change a verdict only from an unknown key to what the time says |
| Mandates.ChainCoversIffGapless | validator/src/issuer.rs:46-50 | Renewals leave every instant from first issue to last expiry covered by an accepted mandate of that operator if and only if none comes more than a day after the one before |

## Left out

- libp2p, tokio, axum, DNS, HTTP clients and the call of the language model: foreign I/O. Kademlia appears as an environment only.
- The internals of Ed25519, BLAKE3 and sled: opaque functions, and a disk as a map whose writes may silently fail.
- Lock poisoning and scheduling inside tokio: each handler segment between two awaits is one atomic step; a reply to a receiver that is gone counts as sent.
- Overflow of counters that count records, requests and cards: they are unbounded numbers here.
- The rest of the CBOR library's decoder: indefinite lengths, tags, arrays, negative numbers, floats, other simple values, nesting and length limits, and an enum written as a map. Nothing is claimed of inputs that use them; the decoder of stored bytes is a parameter of the store theorems.
- Lowercasing that changes lengths, and UTF-8 boundaries: texts are sequences of characters and the lowercase copy has the same length, which the shared offsets in `verifier/src/sanitize.rs` presuppose. The 200 of a meta tag are counted in characters, not bytes.
- Claims that `<!--` or `<script` never occur in sanitised text: they would be false, since deleting a span can join its neighbours.
- The system part of the prompt: a constant.
- `harden_description`, `compute_admit_decision`, `TrustWeightStore`, `ReviewQueue`, metric rendering, challenge tokens, `run_stage1`, JSON and URL parsing: one-branch logic or thin plumbing.
- Handlers.CardsBounded: the checks of `publish_card` between the limiter's check and its record (label, endpoint, challenge) appear as a handler that may abort at any time, not one by one.
- HttpApi.PublishBatch: the error branch of the encoder, which cannot fail when it fills a vector in memory, and the JSON shell of the answer.
- HttpApi.PublishOne: one round of the batch loop as a method of its own, with parsing and verification done by its caller; the source has it in line.
- RateLimit.RateLimiter.CheckDomain: the clock is a parameter; domains are strings of any characters.
- Network.AgreementReachable: nothing forces messages to be delivered, so that agreement comes about by itself is not claimed; what is proved is that a finite exchange always reaches it and that stores cannot change for ever.
- Network.NetRunKeepsInv: room for all admissible addresses is assumed, since a full store refuses new ones and then the order of arrival decides which it holds.
- Mandates.FreshAcceptedIff: models the wrap-around of a release build, where a debug build panics; a clock of signed 64-bit seconds reaches neither.
- StoreDisk.HeldSurvivesRestartIff: assumes that removals of the address reach the disk, since a removal that failed can leave there the very value that is put again later; `HeldComesBackIff` covers that case too.
- Network.Restarted: nodes of the network do not remove records, and nothing is said of how a node rejoins its peers.
- Trust weights are opaque eight-byte values: no arithmetic is done on them in the modelled code.
