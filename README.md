# Quassel core bookkeeping in Dafny

This project models three parts of the Quassel IRC client and core:

- **The sync and RPC engine** (`SignalProxy`, with its method catalog
  `ExtendedMetaObject`). It keeps:
  - the set of connected peers and the aggregate "secure" state;
  - the heartbeat settings;
  - the registry of synchronised objects (`class -> instance name -> object`);
  - the signal relay's table of relayed signals;
  - the table of slots attached to wire names.

  It turns incoming sync calls, init requests, init data and RPC calls
  into slot invocations and replies.
- **The client's message list** (`MessageModel`). Rows are kept in
  ascending order of message id. It has:
  - day-change markers;
  - a buffer of backlog waiting to be merged in;
  - per-buffer counters of backlog still expected.
- **FiSH / mircryption message encryption** (`Cipher`):
  - key-mode prefixes;
  - message and topic headers;
  - NUL padding around Blowfish;
  - the key format of the Diffie-Hellman key exchange;
  - the non-standard base64 codec used in ECB mode.

## Modules

| file | module | contents |
|---|---|---|
| `bytes.dfy` | `ByteArrays` | byte arrays (`seq<bv8>`), QByteArray `mid`/`left`/`toLower`, sequence lemmas |
| `fish_base64.dfy` | `FishBase64` | the FiSH base64 codec on `bv32` words (see below) |
| `cipher.dfy` | `Fish` | class `Cipher` and the functions that specify its operations |
| `messagemodel.dfy` | `Messages` | class `MessageModel`, the sorted row list and its specification functions |
| `extended_meta_object.dfy` | `Catalog` | the method catalog: method names, descriptors, overload collapsing, the request/receive pairing |
| `signalproxy.dfy` | `Sync` | classes `SignalRelay`, `SignalProxy`, `Peer`, `QtObject` |

### Modelling choices

- **State and loops.** Objects whose fields the C++ updates in place are
  classes with `modifies` clauses. Loops are `while` loops with their
  invariants, and each loop method is proved against a specification
  function. Examples:
  - `ByteToB64` against `Encoding`;
  - `IndexForId` against `LowerBound`;
  - `ComputeReceiveMap` against `ReceiveMap`.
- **Signals, events and messages.**
  - Emitted signals are appended to the proxy's notification log.
  - Messages sent to a peer are appended to that peer's outbox.
  - Posted `RemovePeerEvent`s form a queue.
  - `deleteLater()` is a flag on the peer.
- **Slot calls.** The slot calls an object receives are appended to its
  invocation log. A slot's return value comes from a function the object
  is built with.
- **Library calls as parameters.** The meta-type registry and signature
  normalisation are parameters (`MetaSystem`). So are Blowfish, standard
  base64, SHA-256 and Diffie-Hellman (`Primitives`). Blowfish yields
  `None` when the library reports failure.
- **Integer width.** `byteToB64` and `b64ToByte` compute on C `int`s. The
  model uses `bv32`, with two's-complement wrap-around and an arithmetic
  right shift (`Sar`). The codec round trip is proved including the
  sign-extended sixth character of each half.
- **Hash iteration order.**
  - The attached-slot multimap is an ordered sequence. A new entry for a
    name goes in front, because a `QMultiHash` lists the most recent value
    of a key first.
  - Where the C++ erases "the first matching entry" of an unordered hash,
    the model proves that some matching entry is erased: `DetachSignal` and
    `StopSynchronize`.
- **Qt 4 semantics.**
  - `QMetaObject::indexOfMethod` and `indexOfSlot` return the last
    matching method id.
  - `QMetaType::Void` is 0, and 0 is also the id of an unknown type.
  - `QMetaMethod::signature()` exists.
- **A message is valid** when its id is positive (`IsValid`).
- **Byte 0x01.** `decrypt` assigns `"\x0"` to its prefix, which as a C
  string is empty. So a plaintext starting with byte 0x01 gets no error
  prefix and nothing else (`DecryptWarnsOnModeMismatch`).
- **A CBC topic that fails to decrypt.** `decryptTopic` hands `mid(1)` of
  the body to CBC, dropping the `*` of the header. It then compares the
  result with the undropped body. So a failed CBC decryption comes back
  without its first byte, and without a leading `@@` when one follows
  (`TopicCbcFailureDropsFirstByte`).

## Model

| member | source | states |
|---|---|---|
| `FishBase64.ByteToB64` | src/core/cipher.cpp:390-453 | the encoder loop yields `Encoding(text)`: per 8-byte block, the right half then the left half, six characters each, low six bits first |
| `FishBase64.ReadWord` | src/core/cipher.cpp:400-426 | four consecutive bytes read with the `v < 0 => v += 256` fix-up form the big-endian word `Pack` |
| `FishBase64.EncodeHalf` | src/core/cipher.cpp:441-450 | the six-step shift loop appends the six digits of a half-word, with an arithmetic shift between steps |
| `FishBase64.EncodingLength` | src/core/cipher.cpp:390-453 | every 8-byte block becomes exactly 12 characters |
| `FishBase64.EncodingInAlphabet` | src/core/cipher.cpp:396 | every encoded character is drawn from the 64-character alphabet |
| `FishBase64.DigitValueOfDigit` | src/core/cipher.cpp:457 | `indexOf` of the alphabet inverts `at` for every 6-bit digit |
| `FishBase64.DigitValueOnto` | src/core/cipher.cpp:457 | `indexOf` of a byte gives -1 (all bits set) or a digit whose character is that byte |
| `FishBase64.DigitsDistinct` | src/core/cipher.cpp:396 | distinct digits have distinct characters |
| `FishBase64.DigitIsAlphabet` | src/core/cipher.cpp:396 | the digit characters, defined by their three byte ranges, are the alphabet literal character by character, 64 of them |
| `FishBase64.B64ToByte` | src/core/cipher.cpp:455-498 | the decoder loop yields `Decoding(text)`: per 12 characters, the left word then the right word, most significant byte first |
| `FishBase64.DecodeHalf` | src/core/cipher.cpp:467-477 | six characters OR-ed in at shifts 0, 6, ..., 30 form the word `Assemble` |
| `FishBase64.AppendWord` | src/core/cipher.cpp:479-495 | the mask, shift and `+256` steps append the four bytes of a word, most significant first |
| `FishBase64.DecodingLength` | src/core/cipher.cpp:455-498 | every 12-character block becomes exactly 8 bytes |
| `FishBase64.WordRoundTrip` | src/core/cipher.cpp:467-472 | decoding the six characters written for a word gives the word back, sign-extended top bits included |
| `FishBase64.UnpackPack` | src/core/cipher.cpp:479-486 | the decoder's byte extraction inverts the encoder's big-endian packing |
| `FishBase64.BlockRoundTrip` | src/core/cipher.cpp:455-498 | decoding the 12 characters of an 8-byte block gives the block back |
| `FishBase64.DecodingEncoding` | src/core/cipher.cpp:365 | `b64ToByte(byteToB64(t)) == t` for every `t` whose length is a multiple of 8 |
| `Fish.Cipher.constructor` | src/core/cipher.cpp:17-24 | a new cipher has no key and the type "blowfish" |
| `Fish.Cipher.WithKey` | src/core/cipher.cpp:26-34 | constructing with a key stores it as `setKey` would, and stores the type |
| `Fish.ModePrefixIsCaseInsensitivePrefix` | src/core/cipher.cpp:45-50 | `key.mid(0, 4).toLower() == prefix` holds exactly when the key is at least 4 bytes long and its first four bytes lower-case to the prefix |
| `Fish.Cipher.SetKey` | src/core/cipher.cpp:36-61 | an empty key returns false and clears the key; otherwise returns true, stores the normalised key, and sets CBC mode unless the key starts with `ecb:` in any case |
| `Fish.NormalizedKeyNamesMode` | src/core/cipher.cpp:45-59 | the stored key always starts with `ecb:` or `cbc:` (case-insensitive) |
| `Fish.NormalizedKeyIdempotent` | src/core/cipher.cpp:36-61 | setting the stored key again stores the same key in the same mode |
| `Fish.Cipher.SetType` | src/core/cipher.cpp:63-68 | always succeeds, sets the cipher type and nothing else |
| `Fish.PaddedIsShortestNulExtension` | src/core/cipher.cpp:320-331 | padding appends fewer than 8 NUL bytes to reach a multiple of 8, keeps the text as prefix, and leaves a multiple of 8 alone |
| `Fish.PadWithNuls` | src/core/cipher.cpp:357-358 | the append-NUL loop ends at `Padded(s)` |
| `Fish.Cipher.BlowfishCbc` | src/core/cipher.cpp:313-348 | CBC: pad and prefix the IV when encoding, or base64-decode and pad when decoding; on library failure return the input; else base64 the output or drop its first 8 bytes |
| `Fish.CbcRoundTrip` | src/core/cipher.cpp:313-348 | for an inverting cipher and base64, CBC decoding of a CBC encoding gives the NUL-padded text |
| `Fish.Cipher.BlowfishEcb` | src/core/cipher.cpp:350-387 | ECB: refuse to decode a length that is not a multiple of 12, pad, run the cipher, return the input on failure or on an output length that is not a multiple of 8, and use the FiSH codec |
| `Fish.EcbRejectsMalformed` | src/core/cipher.cpp:362-363 | ECB decoding returns a text whose length is not a multiple of 12 unchanged |
| `Fish.EcbRoundTrip` | src/core/cipher.cpp:350-387 | for an inverting cipher, ECB decoding of an ECB encoding gives the NUL-padded text |
| `Fish.HeaderOfPrefixes` | src/core/cipher.cpp:79-98 | the `*` (CBC) headers are recognised before the bare ECB headers; each header is detected iff the text starts with it, and no header iff it starts with neither `"+OK "` nor `"mcps "` |
| `Fish.Cipher.Decrypt` | src/core/cipher.cpp:70-136 | decrypt is `DecryptOutcome`: header detection, mode-mismatch prefix, failure passthrough, 0x01 exemption, trailing `" \n"` |
| `Fish.DecryptWithoutHeader` | src/core/cipher.cpp:95-98 | a text without any known header is returned unchanged |
| `Fish.DecryptEndsWithTrailer` | src/core/cipher.cpp:107-135 | every result past header detection ends with `" \n"` |
| `Fish.DecryptWarnsOnModeMismatch` | src/core/cipher.cpp:100-135 | a successful decryption gets `ERROR_NONCBC: ` when a CBC key meets ECB text, `ERROR_NONECB: ` for the reverse, and nothing when the plaintext starts with 0x01 or the modes agree |
| `Fish.Cipher.DecryptTopic` | src/core/cipher.cpp:253-280 | decryptTopic is `TopicOutcome`: header stripping, mode choice, failure passthrough, `@@` stripping |
| `Fish.TopicWithoutHeader` | src/core/cipher.cpp:255-260 | a topic with neither `"+OK "` nor the mircryption header is returned unchanged |
| `Fish.TopicCbcFailureDropsFirstByte` | src/core/cipher.cpp:265-277 | in CBC mode a failed decryption returns the body without its first byte, and without a following `@@` |
| `Fish.Cipher.Encrypt` | src/core/cipher.cpp:282-310 | encrypt is `EncryptOutcome` on the key's mode |
| `Fish.EncryptOutcomes` | src/core/cipher.cpp:282-310 | `"+p "` text loses the marker and succeeds; failure returns false with the text unchanged; success is `"+OK *"` + payload in CBC mode, `"+OK "` + payload in ECB mode |
| `Fish.EncodingAvoidsStar` | src/core/cipher.cpp:79-90 | FiSH base64 never produces `*`, so an ECB message is never taken for a CBC one |
| `Fish.EcbMessageRoundTrip` | src/core/cipher.cpp:70-136 | with an inverting cipher, decrypting an ECB-encrypted message gives the padded text followed by `" \n"` |
| `Fish.CbcMessageRoundTrip` | src/core/cipher.cpp:70-136 | with an inverting cipher and base64, decrypting a CBC-encrypted message gives the padded text followed by `" \n"` |
| `Fish.TrimPaddingSpec` | src/core/cipher.cpp:191-192 | stripping leaves a prefix not ending in `=`, and only `=` was removed |
| `Fish.ChopPadding` | src/core/cipher.cpp:239-240 | the chop loop ends at `TrimPadding(s)` |
| `Fish.ExchangedKeyFormat` | src/core/cipher.cpp:191-199 | the derived key has no trailing `=`, is prefixed `cbc:` iff the peer asked for CBC, else `ecb:`, and `setKey` stores it unchanged in that mode |
| `Fish.RemoteKeyLength` | src/core/cipher.cpp:161-167 | a received key is accepted only if it is 181 bytes long after stripping an optional `" CBC"` |
| `Fish.Cipher.InitKeyExchange` | src/core/cipher.cpp:138-154 | stores the generated key pair and the wanted mode; replies nothing on failure, else the base64 public key (one leading zero dropped past 135 bytes) followed by `A` |
| `Fish.Cipher.ParseInitKeyX` | src/core/cipher.cpp:156-208 | refuses a key of the wrong length, an invalid key or a failed generation with an empty reply and no change; otherwise stores the exchanged key in the requested mode, records the peer's mode, and replies with its public key |
| `Fish.Cipher.ParseFinishKeyX` | src/core/cipher.cpp:210-251 | succeeds iff the key is acceptable and a key pair is pending; on success stores the exchanged key in the peer's mode; on failure changes nothing |
| `Messages.MessageModel.constructor` | src/client/messagemodel.cpp:41-52 | empty model; the first day change is the next midnight (UTC) |
| `Messages.MessageModel.Data` | src/client/messagemodel.cpp:54-66 | data answers only for existing rows and non-negative columns |
| `Messages.ModelDataBounds` | src/client/messagemodel.cpp:494-517 | the model answers only for existing rows and non-negative columns, and, except for the column-type role, only for the timestamp, sender and contents columns; the id role gives the row's message id |
| `Messages.MessageModel.SetData` | src/client/messagemodel.cpp:68-79 | succeeds iff the row exists and the role is RedirectedToRole; then only that row's redirect changes, and data reads it back |
| `Messages.ItemComparisonsTrichotomy` | src/client/messagemodel.cpp:538-551 | items compare by message id alone: exactly one of `<`, `==`, `>` holds, and `>` is `<` reversed |
| `Messages.SortById` | src/client/messagemodel.cpp:110 | sorting yields an ordered permutation of the buffer |
| `Messages.IndexForId` | src/client/messagemodel.cpp:336-356 | on a sorted list, the binary search returns `LowerBound`: every row before it has a smaller id, the row at it (if any) an id no smaller |
| `Messages.LowerBoundUnique` | src/client/messagemodel.cpp:336-356 | that index is the only one with this property |
| `Messages.MessageModel.InsertMessage` | src/client/messagemodel.cpp:81-92 | a real message whose id already sits at `indexForId` is refused with no change; otherwise it is inserted as a one-message group |
| `Messages.GroupPlace` | src/client/messagemodel.cpp:125-145 | the group goes at the lower bound of its first id, or one row earlier when a stale day-change marker is removed there |
| `Messages.DayChangeTail` | src/client/messagemodel.cpp:133-177 | at most one day-change marker follows the group, carrying the group's last id |
| `Messages.GroupInsertionShape` | src/client/messagemodel.cpp:120-184 | the group lands contiguously at its place with the rows before untouched, and the count changes by the group size, plus or minus one marker |
| `Messages.GroupInsertionOrdered` | src/client/messagemodel.cpp:172-183 | inserting a fitting group keeps the rows ordered by id across both block boundaries |
| `Messages.MessageModel.InsertMessageGroup` | src/client/messagemodel.cpp:120-184 | the rows become `GroupInsertion(rows, group)` and stay ordered |
| `Messages.VisitOrderDescends` | src/client/messagemodel.cpp:195-211 | whichever way the list is ordered, it is walked from highest id to lowest |
| `Messages.GroupIdsAreNew` | src/client/messagemodel.cpp:224-263 | a collected group brings only ids no row has |
| `Messages.DayMarkers` | src/client/messagemodel.cpp:246-260 | a marker goes between a visited message and the group exactly when the two lie on different days, and it carries the visited message's id |
| `Messages.VisitStepCollects` | src/client/messagemodel.cpp:240-263 | one visit keeps everything collected, adds only the visited message and day-change markers, and adds the message unless a row or the last visited message has its id |
| `Messages.VisitStepKeepsPending` | src/client/messagemodel.cpp:236-263 | a visit above the row before the group's place keeps the group ordered, starting with the last id visited and ending below the next row; while nothing is collected the visited message's place is a row, so the row read at line 243 is in range |
| `Messages.WalkStops` | src/client/messagemodel.cpp:219-237 | the walk visits the first message and stops at the end of the list or at the first message not above the row before the first message's place, never earlier |
| `Messages.WalkDraws` | src/client/messagemodel.cpp:224-263 | the group holds only visited messages and day-change markers |
| `Messages.WalkCollects` | src/client/messagemodel.cpp:224-263 | every visited message whose id no row has is collected, except a repeat of the id visited just before |
| `Messages.WalkGroupFits` | src/client/messagemodel.cpp:186-298 | for ordered rows and a list visited from high to low ids, a collected group is ordered and fits at its place below the next row |
| `Messages.CollectGroup` | src/client/messagemodel.cpp:195-298 | the loop over the list (both orders) computes the walk `Walk`: the visited count and the collected group |
| `Messages.MessageModel.InsertMessagesGracefully` | src/client/messagemodel.cpp:186-303 | returns the walk's visited count and inserts exactly the walk's group, if any, keeping the rows ordered; nothing else changes |
| `Messages.UnvisitedPart` | src/client/messagemodel.cpp:101-109 | the unprocessed part holds exactly count minus processed messages of the list |
| `Messages.MessageModel.Park` | src/client/messagemodel.cpp:101-112 | the messages not visited become the buffer, sorted, and one event is posted exactly when there are some |
| `Messages.MessageModel.MergeAndPark` | src/client/messagemodel.cpp:99-113 | with no buffer pending, the walk's group is inserted, and the messages it did not visit become the sorted buffer, with one event posted exactly when that buffer is non-empty |
| `Messages.MessageModel.InsertMessages` | src/client/messagemodel.cpp:94-118 | an empty list changes nothing; with a buffer pending, the list joins the buffer, which stays sorted, and the rows are untouched; otherwise the walk's group is inserted and the messages it did not visit become the sorted buffer, and one processing event is posted exactly when that buffer is non-empty |
| `Messages.MessageModel.CustomEvent` | src/client/messagemodel.cpp:305-323 | only a processing event on a non-empty buffer acts: it inserts the walk's group over the buffer, drops as many messages as were visited from the buffer's end, so the buffer strictly shrinks, and posts again iff messages remain |
| `Messages.MessageModel.Clear` | src/client/messagemodel.cpp:325-333 | clears the rows and the backlog counters |
| `Messages.DayChangeSpotUnique` | src/client/messagemodel.cpp:363-371 | the backward scan's stopping point is unique |
| `Messages.DayChangeIndex` | src/client/messagemodel.cpp:363-371 | it is just after the last row whose timestamp is not after the day change |
| `Messages.InsertCopyingPredecessor` | src/client/messagemodel.cpp:404-408 | a marker copying the preceding row's id keeps the rows ordered |
| `Messages.MessageModel.ChangeOfDay` | src/client/messagemodel.cpp:358-414 | inserts at most one marker, just after the last row not newer than the day change, with that row's id, none when every row is newer; the day change advances by exactly one day |
| `Messages.MessageModel.InsertErrorMessage` | src/client/messagemodel.cpp:416-427 | appends an error row with the last row's id, or id 0 on an empty model |
| `Messages.OldestAvailableIsFirst` | src/client/messagemodel.cpp:437-447 | the oldest available id is that of the buffer's first row, or -1 when there is none or it is not valid |
| `Messages.MessageModel.RequestBacklog` | src/client/messagemodel.cpp:429-466 | a buffer already waited on changes nothing; otherwise its counter is set and one request from the oldest available id is made |
| `Messages.MessageModel.MessagesReceived` | src/client/messagemodel.cpp:468-478 | ignores buffers not waited on; otherwise decrements the counter, and removes it and announces `finishedBacklogFetch` exactly when it reaches zero or below |
| `Messages.RetaggedChangesOnlyBuffers` | src/client/messagemodel.cpp:480-489 | every row of `bufferId2` becomes `bufferId1`, nothing else changes, the count is kept, and order is kept |
| `Messages.MessageModel.BuffersPermanentlyMerged` | src/client/messagemodel.cpp:480-489 | the rows become `Retagged(rows, bufferId1, bufferId2)` |
| `Catalog.MethodNameBeforeParen` | src/common/signalproxy.cpp:896-900 | the method name is the text left of the first `(`; empty when there is none |
| `Catalog.SlotBaseName` | src/common/signalproxy.cpp:909-915 | a slot's base name is empty iff its name has no capital, else exactly the suffix starting at the name's first capital |
| `Catalog.SignalBaseName` | src/common/signalproxy.cpp:916-926 | a signal's base name is empty when its name has no capital; with the last capital at position p > 0 it is the first p characters with the first upper-cased; with only a leading capital it is a single NUL byte |
| `Catalog.Descriptor` | src/common/signalproxy.cpp:934-940 | the argument types are the meta-types of the parameter type names, one for one |
| `Catalog.DescriptorMeaning` | src/common/signalproxy.cpp:942-948 | the receiver mode is Server iff the name starts with "request"; the minimum argument count is at most the parameter count, and equal to it iff the signature has no `=` |
| `Catalog.IndexOfMethodIsLast` | src/common/signalproxy.cpp:789 | the method lookup finds the last method of that signature and kind, -1 when none |
| `Catalog.MethodIdsNames` | src/common/signalproxy.cpp:791-829 | the name map holds exactly the names of receivable slots (no pointer parameters, not `init*`), each mapped to a slot of that name |
| `Catalog.CollapseCases` | src/common/signalproxy.cpp:802-828 | a new name is taken; a variant extending the held one's parameter list takes over; a shorter variant or conflicting overload leaves the first one seen |
| `Catalog.MethodIdsKeepFullVariant` | src/common/signalproxy.cpp:802-828 | when the variants of a name are nested, the held one extends them all |
| `Catalog.NewExtendedMetaObject` | src/common/signalproxy.cpp:787-830 | the constructor loop builds `MethodIds(meta)` and finds `updatedRemotely()` |
| `Catalog.ReceiverOfMeaning` | src/common/signalproxy.cpp:855-888 | a request slot pairs with the last slot named `receive...` taking its parameters plus the return type, else with one taking only the return type; other methods pair with none |
| `Catalog.ReceiveMapPairs` | src/common/signalproxy.cpp:842-893 | every receive-map entry pairs a request slot with a slot of one of the two receiver signatures |
| `Catalog.FindReceiver` | src/common/signalproxy.cpp:856-884 | one loop step finds `ReceiverOf` |
| `Catalog.ComputeReceiveMap` | src/common/signalproxy.cpp:842-893 | the loop builds `ReceiveMap(meta)` |
| `Sync.SignalRelay.constructor` | src/common/signalproxy.cpp:66 | a new relay has no slots |
| `Sync.SignalRelay.AttachSignal` | src/common/signalproxy.cpp:89-113 | the new entry gets the smallest non-negative free id, and existing entries are unchanged |
| `Sync.SignalRelay.DetachSignal` | src/common/signalproxy.cpp:116-129 | with id -1, removes every entry of the sender and keeps the rest; otherwise removes one matching entry, or nothing when none matches |
| `Sync.SignalProxy.constructor` | src/common/signalproxy.cpp:169-183 | no peers, empty tables, heartbeat 30 s and count 2 announced, not secure, the rename slot attached in Client mode |
| `Sync.SignalProxy.SetProxyMode` | src/common/signalproxy.cpp:204-216 | refused while peers are connected; otherwise sets the mode, and Client mode attaches the rename slot |
| `Sync.SignalProxy.Init` | src/common/signalproxy.cpp:219-228 | heartbeat settings reset to 30 s and 2, each change announced, secure state recomputed |
| `Sync.SignalProxy.SetHeartBeatInterval` | src/common/signalproxy.cpp:242-248 | sets the interval, and announces it only when it changed |
| `Sync.SignalProxy.SetMaxHeartBeatCount` | src/common/signalproxy.cpp:251-257 | sets the count, and announces it only when it changed |
| `Sync.SignalProxy.UpdateSecureState` | src/common/signalproxy.cpp:770-781 | secure becomes "peers non-empty and all secure"; `secureStateChanged` fires exactly when the value flipped |
| `Sync.SignalProxy.AddPeer` | src/common/signalproxy.cpp:260-296 | true iff the peer is non-null and either already present or open and allowed (Server mode, or no peer yet); refusal and re-adding change nothing; acceptance joins the peer, and `connected` fires only on the first one |
| `Sync.SignalProxy.Join` | src/common/signalproxy.cpp:284-294 | the peer joins the set, is adopted if it has no parent, learns its proxy, and the secure state is recomputed |
| `Sync.SignalProxy.RemovePeer` | src/common/signalproxy.cpp:310-340 | no-op for a null or unknown peer or an empty set; otherwise removes exactly that peer |
| `Sync.SignalProxy.Leave` | src/common/signalproxy.cpp:327-339 | the peer leaves and forgets the proxy, is scheduled for deletion iff the proxy owns it, `peerRemoved` fires, the secure state is recomputed, `disconnected` fires iff the set becomes empty |
| `Sync.SignalProxy.RemoveAllPeers` | src/common/signalproxy.cpp:299-307 | every peer is removed and forgets the proxy, each removal announced; the set ends empty, not secure, with `disconnected` last; no peers means no change |
| `Sync.SignalProxy.RemoveNext` | src/common/signalproxy.cpp:304-306 | one loop step removes one more peer and records where its removal was announced |
| `Sync.SignalProxy.ProcessRemovePeerEvent` | src/common/signalproxy.cpp:697-711 | an empty queue changes nothing; otherwise the oldest queued removal is taken and that peer removed: a connected peer leaves as `Leave` states (forgets the proxy, deletion flag, `peerRemoved`, secure state, `disconnected`), and a peer no longer connected changes nothing else and announces nothing |
| `Sync.SignalProxy.Dispatch` | src/common/signalproxy.cpp:502-511 | every open peer gets the message; every closed peer is queued once for removal; the queue only grows |
| `Sync.SignalProxy.RequestInit` | src/common/signalproxy.cpp:671-677 | sends an init request to all peers only in Client mode for an uninitialised object |
| `Sync.PackArguments` | src/common/signalproxy.cpp:149-156 | the argument loop succeeds iff no parameter type is unknown (0), and then yields each raw argument as a value of its declared type |
| `Sync.WrappedArgumentsMatch` | src/common/signalproxy.cpp:149-156 | arguments packed with known types are valid values of the declared types, as a receiving slot demands |
| `Sync.SignalProxy.RelayCall` | src/common/signalproxy.cpp:132-164 | a negative id is returned as is; invoking a relayed signal sends one rpc call under its wire name to every peer, unless a parameter type is unknown, which sends nothing and returns the id unchanged; an invocation otherwise returns the id less the number of relay slots; nothing is sent for other ids or calls |
| `Sync.SignalProxy.SendSync` | src/common/signalproxy.cpp:714-736 | a call for the other proxy mode, or with an unknown parameter type, sends nothing; otherwise every peer gets one sync message with the object's class and name, the method name and the packed arguments |
| `Sync.RenamedMoves` | src/common/signalproxy.cpp:364-366 | after a rename the new name holds the object, the old name is gone, and every other entry is unchanged |
| `Sync.SignalProxy.ObjectRenamed` | src/common/signalproxy.cpp:362-368 | no-op when the class or old name is missing or old == new; otherwise moves the entry and requests init for the object |
| `Sync.SignalProxy.RenameObject` | src/common/signalproxy.cpp:349-359 | nothing in Client mode; in Server mode renames locally and broadcasts the rename RPC call with class, new and old name |
| `Sync.SignalProxy.AttachSignal` | src/common/signalproxy.cpp:398-414 | succeeds iff the normalised signature names a signal; then the relay entry is added at the lowest free id |
| `Sync.SignalProxy.AttachSlot` | src/common/signalproxy.cpp:417-434 | succeeds iff the normalised signature names a method that is not a plain method; then the entry goes in front under the normalised wire name |
| `Sync.SignalProxy.DetachSlots` | src/common/signalproxy.cpp:473-483 | the table becomes `WithoutReceiver(table, receiver)` |
| `Sync.WithoutReceiverMeaning` | src/common/signalproxy.cpp:473-483 | detaching keeps exactly the entries of other receivers |
| `Sync.WithoutReceiverShrinks` | src/common/signalproxy.cpp:473-483 | detaching never adds entries |
| `Sync.WithoutReceiverUnchanged` | src/common/signalproxy.cpp:473-483 | detaching an object with no entries changes nothing |
| `Sync.SignalProxy.DetachObject` | src/common/signalproxy.cpp:460-470 | drops the object's attached slots and all the signals it relays, keeping every other entry |
| `Sync.SignalProxy.Synchronize` | src/common/signalproxy.cpp:437-457 | registers the object under class and name; Server mode marks it initialised and announces it; Client mode announces an initialised object or requests init |
| `Sync.SignalProxy.StopSynchronize` | src/common/signalproxy.cpp:486-499 | removes the object from one class that holds it under its name, or changes nothing |
| `Sync.CheckArguments` | src/common/signalproxy.cpp:633-644 | the argument loop accepts iff every supplied argument that meets a declared parameter is valid (not of the void/invalid type 0) and of the declared type |
| `Sync.SignalProxy.InvokeSlot` | src/common/signalproxy.cpp:615-661 | fails on too few arguments, an invalid or mistyped used argument, or another thread; otherwise the slot is called with the supplied arguments up to its parameter count |
| `Sync.ExtraParamsIgnored` | src/common/signalproxy.cpp:619-644 | arguments beyond the declared count change neither acceptance nor the call |
| `Sync.NegativeIdIsNoOp` | src/common/signalproxy.cpp:653-654 | a negative method id calls nothing |
| `Sync.ReplyParams` | src/common/signalproxy.cpp:544-547 | the reply's params are the original params then the return value when the receiver takes more than one argument, else just the return value |
| `Sync.RepliesOnlyFromServer` | src/common/signalproxy.cpp:531-549 | a reply is sent only for a request slot, hence only by a Server |
| `Sync.SignalProxy.HandleSync` | src/common/signalproxy.cpp:514-553 | an unknown class, instance or method, or a mode mismatch: nothing is sent or invoked; else the slot and `updatedRemotely()` are invoked and a reply, if any, goes only to the originating peer |
| `Sync.SignalProxy.SyncCall` | src/common/signalproxy.cpp:536-552 | a routed call invokes the slot and `updatedRemotely()` and sends `SyncReply` to the peer |
| `Sync.SignalProxy.SendReply` | src/common/signalproxy.cpp:542-549 | for an accepted call with its return value, appends exactly `SyncReply` to the requesting peer's outbox |
| `Sync.SignalProxy.HandleInitRequest` | src/common/signalproxy.cpp:556-572 | an unregistered object gets no answer; a registered one sends its property map to the requesting peer only |
| `Sync.SignalProxy.SetInitData` | src/common/signalproxy.cpp:686-694 | an initialised object is untouched; otherwise its properties are applied, it becomes initialised, `objectInitialized` fires once and `updatedRemotely()` is invoked |
| `Sync.SignalProxy.HandleInitData` | src/common/signalproxy.cpp:575-593 | init data for an unregistered object announces nothing; a registered uninitialised object merges the properties, becomes initialised, `objectInitialized` fires once and `updatedRemotely()` is invoked through the slot gate; an initialised one is untouched |
| `Sync.MatchingMeaning` | src/common/signalproxy.cpp:602-603 | the entries visited for a name are exactly the attached entries with that name |
| `Sync.SignalProxy.Deliver` | src/common/signalproxy.cpp:604-609 | one entry is invoked iff the gate accepts; an accepted rename entry renames in the registry and sends nothing, except that in Client mode an uninitialised renamed object has an init request sent to every peer; a refused or inapplicable rename sends nothing |
| `Sync.SignalProxy.HandleRpcCall` | src/common/signalproxy.cpp:596-612 | every receiver attached under the call's name gets exactly the accepted calls of its entries, in table order; with no rename entry nothing else changes |

## Left out

- Blowfish, standard base64, SHA-256 and Diffie-Hellman key generation and
  derivation are library calls. They are parameters here, and round trips
  are proved under the hypothesis that they invert.
- `neededFeaturesAvailable` asks the library what it supports. It is not
  modelled.
- `FishBase64.ByteToB64`: requires a length that is a multiple of 8. For any
  other length the C++ reads past the end of the array. Its only caller
  checks this first.
- `FishBase64.B64ToByte`: requires a length that is a multiple of 12, for
  the same reason.
- The random IV of CBC encryption is a parameter of `Encrypt`.
- `Fish.Cipher.constructor`: leaves the CBC flag unspecified, because the C++
  leaves `m_cbc` uninitialised.
- Byte 0 of an empty plaintext: `decrypt` reads it without a check. The
  model takes it as not 0x01.
- Timers and wall-clock time are not modelled:
  - The constructor's `QTimer` and the reset of its interval are left out.
  - "Now" is a parameter of the constructor and of `InsertErrorMessage`.
  - Time-zone reinterpretation (`setTimeSpec`) is left out. Days are UTC
    days of the millisecond timestamp.
- View notifications are left out: `beginInsertRows`, `endRemoveRows`,
  `dataChanged` and the rest.
- `Messages.MessageModel.RequestBacklog`:
  - the amount from `BacklogSettings` is a parameter;
  - the request to the backlog manager is recorded in a list;
  - the status text sent to the backlog manager is left out.
- `Messages.SortById`: an insertion sort, proved to give an ordered
  permutation, as `std::sort` does. The order among equal ids is not
  claimed to match.
- The role numbers of the item model are not modelled. `Role` is a
  datatype.
- `Messages.MessageModel.InsertMessageGroup`: requires a sorted group that
  fits at its place. The C++ relies on its callers for this, and checks it
  only with `Q_ASSERT`. It also requires the rows to be sorted, the model's
  class invariant.
- `Messages.MessageModel.InsertMessagesGracefully`: requires a non-empty
  list, ordered one way or the other, of valid messages. This is what its
  callers pass; with anything else the C++ can index past the rows.
- `Messages.MessageModel.InsertMessages`: requires the same. Its processed
  count is a ghost out-parameter.
- Hash iteration order is not modelled. `DetachSignal` and
  `StopSynchronize` remove some matching entry.
- `Sync.SignalProxy.RemoveAllPeers` visits the peers in an arbitrary order.
  - It does not state the order of the notifications.
  - It does not state the per-peer deletion flag. `Sync.SignalProxy.RemovePeer`
    (through `Leave`) states it for each removal.
- Qt's meta-object machinery is not modelled:
  - `QObject::qt_metacall`, which the relay's `qt_metacall` calls first:
    `RelayCall` takes the id it leaves;
  - `sender()` and the method-id lookup of `sync_call__`
    (in signalproxy.h, which is not part of this model): they are
    parameters of `RelayCall` and `SendSync`;
  - QVariant construction from raw pointers and `va_list`: a raw argument
    is an opaque string, wrapped with its declared type.
- The thread-affinity check of `invokeSlot` is a boolean per object.
  Cross-thread delivery is unimplemented in the C++ and always fails.
- Signal/slot `connect`/`disconnect` wiring is not modelled:
  - in `addPeer` and `removePeer`, including `lagUpdated` forwarding;
  - the `destroyed` wiring in `attachSignal` and `attachSlot`;
  - `removePeerBySender`, which is `removePeer` of the sender.
- The event loop is not modelled. `postEvent` appends to a queue, handled
  by `ProcessRemovePeerEvent`. `deleteLater` sets a flag. The destructor's
  teardown is left out.
- Logging, `dumpProxyStats` and `disconnectDevice` are diagnostics and
  socket I/O. They are not modelled.
- `SyncableObject::toVariantMap` and `fromVariantMap` are a property map on
  the object. Applying init data is a map update.
- `SyncableObject::synchronize` and `stopSynchronize` are not part of this
  model.
- The catalog of a class is not cached. The C++ caches it lazily, along
  with descriptors and the receive map. The model builds the catalog with
  the object, and descriptors and the receive map are functions.
- `checkConflicts` only controls a warning. It is not modelled.
- Only ASCII letters are upper-cased in base names. Non-ASCII characters
  are not case-converted.
- The two-argument `invokeSlot` is `InvokeSlot` with the void return type.
- `Sync.SignalProxy.HandleRpcCall`: when a rename entry is among the
  targets, it does not state the registry or the outboxes afterwards.
  `Sync.SignalProxy.Deliver` states that effect for each call.
- `Sync.SignalRelay.AttachSignal`: the chosen slot id is a ghost
  out-parameter. The C++ returns nothing; the id is internal to the table.
- Wire framing, peer transport and the protocol's serialisation are not
  modelled. A peer's outbox holds protocol messages as values.
