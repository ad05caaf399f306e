# A verified model of the Crystal Server core

This project models, in Dafny, the core of Crystal Server, an open-source game server written in
C++. The model covers:

- the network message buffer: byte, string, position and header readers and writers, and append;
- the service ports and the service manager: registering services, choosing a protocol, the
  accept and reconnect decisions, and starting and stopping;
- the item decay queue: starting, stopping and the periodic check;
- item attributes: the typed attribute slots, the attribute vector and custom attributes;
- the Discord webhook: the JSON payload and the queue of outgoing messages;
- the mailbox: what it accepts and how it finds a parcel's receiver;
- talk actions: the ordered registry and the word matching of a spoken text;
- the Lua environment: area objects, timer events and the Lua state lifecycle;
- storages: the key ranges of the storages document, and their conflict warnings;
- vocations: absorb percentages, the memoised skill and mana sums, the loader and the lookups;
- player groups: flag decoding and the lookup by id;
- the server's start-up decisions: world type, house rent period, module loading and the exit
  code.

Every XML, Lua and configuration input reaches the model already parsed, as Dafny values.

Each source file has one module. Code that changes state in place is a `class`: the network
message, the service port and the service manager, the decay queue, the item attribute holder,
the webhook queue, the talk-action registry, the Lua environment, the storage map, a vocation and
the vocation table, and the group table. Each method's `ensures` ties
the new state to a specification function of the old state. The properties the server relies on
are lemmas about those functions. Five helper modules hold shared definitions:

- `Ints`: the C++ integer widths and their wrap-around conversions.
- `Wrappers`: `Option` and `Result`.
- `Text`: ASCII lower-casing, trimming, the first line and the comma split.
- `Seqs`: swap-and-pop and index search.
- `Sets`: the smallest element of a set.

## Model

| member | source | states |
|---|---|---|
| Network.Overwrite | server/network/message/networkmessage.cpp:224-241 | the written sequence keeps its length, holds the given bytes from the offset on, and keeps every other byte |
| Network.Put | server/network/message/networkmessage.cpp:209-222 | a successful write puts the bytes at the position, grows the position by their count inside the body, and grows the length in 16-bit arithmetic |
| Network.LittleEndian16 | server/network/message/networkmessage.cpp:184-185 | the length prefix is two bytes, low then high, whose value low + 256 * high is the length |
| Network.FromLittleEndian16 | server/network/message/networkmessage.cpp:22-53 | it is the inverse of LittleEndian16: the value it builds from a low and a high byte encodes back to exactly those two bytes |
| Network.AddByteSpec | server/network/message/networkmessage.cpp:209-222 | addByte writes the byte at the position when canAdd(1) holds, and otherwise leaves the message unchanged |
| Network.AddU16Spec | server/network/message/networkmessage.cpp:184-185 | the 2-byte length write addString uses is a checked little-endian write that fails without change |
| Network.SkipBytesSpec | server/network/message/networkmessage.cpp:132-134 | skipBytes moves the position by the signed count modulo 2^16 and touches nothing else |
| Network.LengthHeader | server/network/message/networkmessage.cpp:276-278 | getLengthHeader is the little-endian value of the first two bytes |
| Network.CanAddWithoutWrap | server/network/message/networkmessage.cpp:299-301 | for a size within the maximum message size, canAdd's size_t sum cannot wrap, so it means position + size < MAX_BODY_LENGTH |
| Network.WritersStayInBody | server/network/message/networkmessage.cpp:224-252 | addBytes and addPaddingBytes either change nothing, or write exactly size bytes at the old position and stay inside the body |
| Network.AddBytesOutcome | server/network/message/networkmessage.cpp:224-241 | addBytes succeeds exactly when the pointer is non-null, canAdd holds and size <= NETWORKMESSAGE_MAXSIZE; on success it copies the bytes and grows position and length by size |
| Network.ByteThenPreviousByte | server/network/message/networkmessage.cpp:56-95 | a successful getByte followed by getPreviousByte returns the same byte twice and restores the position |
| Network.GetStringConsumes | server/network/message/networkmessage.cpp:97-121 | getString either returns the empty string at the position after the length prefix, or advances by exactly the string's length over bytes inside the buffer |
| Network.StringRoundTrip | server/network/message/networkmessage.cpp:97-191 | a string that addString writes at a position reads back unchanged with getString(0) from that position, ending where addString ended |
| Network.AddStringLayout | server/network/message/networkmessage.cpp:136-191 | addString writes the 2-byte length prefix at the position, then the bytes, and grows position and length by length + 2 |
| Network.StringReadsBack | server/network/message/networkmessage.cpp:97-121 | a length-prefixed string laid out at a readable position is what getString(0) returns from it |
| Network.ReadU16Back | server/network/message/networkmessage.cpp:97-100 | two little-endian bytes at a readable position read back as their 16-bit value, two bytes further on |
| Network.AppendCopiesPayload | server/network/message/networkmessage.cpp:307-329 | after a successful append, the bytes from the old position are the other message's length bytes from INITIAL_BUFFER_POSITION |
| Network.DecodeHeaderOutcome | server/network/message/networkmessage.cpp:22-53 | decodeHeader returns 0 and changes nothing without two readable bytes; otherwise it returns the little-endian pair at the position and advances by four |
| Network.CanReadIgnoresCapacity | server/network/message/networkmessage.cpp:97-121 | as written, with length 65535 canRead accepts a 100-byte string at position 24580, whose copy would run past the 24590-byte array |
| Network.CorrectedReadsStayInBuffer | server/network/message/networkmessage.cpp:97-121 | with the capacity check added, getString never reads or moves the position past the array |
| Network.PaddingGuardWraps | server/network/message/networkmessage.cpp:243-252 | as written, canAdd accepts a padding size of 2^64 - 8 at position 8, because the size_t sum wraps to 0 |
| Network.CorrectedPaddingStaysInBody | server/network/message/networkmessage.cpp:243-252 | with the maximum-size check added, addPaddingBytes writes only 0x33 bytes, only inside the body |
| Network.NetworkMessage.Write | server/network/message/networkmessage.cpp:224-241 | the in-place copy that every writer shares leaves the state Put describes |
| Network.NetworkMessage.AddByte | server/network/message/networkmessage.cpp:209-222 | the in-place addByte leaves the state AddByteSpec gives |
| Network.NetworkMessage.AddU16 | server/network/message/networkmessage.cpp:184-185 | the in-place 16-bit write leaves the state AddU16Spec gives |
| Network.NetworkMessage.AddBytes | server/network/message/networkmessage.cpp:224-241 | the in-place addBytes leaves the state whose contents AddBytesOutcome states |
| Network.NetworkMessage.AddPaddingBytes | server/network/message/networkmessage.cpp:243-252 | the in-place padding write leaves the state of the corrected guard (CorrectedPaddingStaysInBody) |
| Network.NetworkMessage.AddString | server/network/message/networkmessage.cpp:136-191 | the in-place addString leaves the state AddStringLayout describes |
| Network.NetworkMessage.AddPosition | server/network/message/networkmessage.cpp:254-258 | addPosition is x and y as 16-bit writes, then z as a byte write |
| Network.NetworkMessage.Append | server/network/message/networkmessage.cpp:307-329 | the in-place append leaves the state AppendCopiesPayload describes |
| Network.NetworkMessage.GetByte | server/network/message/networkmessage.cpp:56-77 | the in-place getByte returns the byte and the state GetByteSpec gives |
| Network.NetworkMessage.GetPreviousByte | server/network/message/networkmessage.cpp:79-95 | the in-place getPreviousByte returns the byte and the state GetPreviousByteSpec gives |
| Network.NetworkMessage.GetU16 | server/network/message/networkmessage.cpp:97-100 | the 16-bit read reads two little-endian bytes behind the corrected guard |
| Network.NetworkMessage.DecodeHeader | server/network/message/networkmessage.cpp:22-53 | the in-place decodeHeader has the outcome DecodeHeaderOutcome states |
| Network.NetworkMessage.GetString | server/network/message/networkmessage.cpp:97-121 | the in-place getString has the outcome GetStringConsumes states |
| Network.NetworkMessage.GetPosition | server/network/message/networkmessage.cpp:123-129 | getPosition reads x and y as 16-bit values, then z as a byte |
| Network.NetworkMessage.SkipBytes | server/network/message/networkmessage.cpp:132-134 | the in-place skipBytes moves only the position |
| Network.NetworkMessage.SetLength | server/network/message/networkmessage.cpp:264-266 | setLength replaces only the length |
| Network.NetworkMessage.SetBufferPosition | server/network/message/networkmessage.cpp:272-274 | setBufferPosition replaces only the position |
| Network.NetworkMessage.GetLengthHeader | server/network/message/networkmessage.cpp:276-278 | the returned header is the little-endian value of the first two bytes |
| Network.NetworkMessage.GetBodyBuffer | server/network/message/networkmessage.cpp:292-297 | getBodyBuffer moves the position to 2 and points HEADER_LENGTH bytes into the buffer |
| Network.AddThenGetString | server/network/message/networkmessage.cpp:97-191 | on the object, a string added and then read from where it was written comes back unchanged |
| Server.AddServiceSpec | server/server.cpp:237-244 | add_service is refused exactly while a registered service is single-socket; otherwise the service is appended |
| Server.AddServiceKeepsSingleSocketLast | server/server.cpp:237-244 | adding keeps the invariant that a single-socket service is the only one of its port |
| Server.SingleSocketPortIsExclusive | server/server.cpp:75-77 | a port whose front service is single-socket serves that service only, and nothing more can be added to it |
| Server.JoinNames | server/server.cpp:79-91 | no services give the empty text and one service gives its own name |
| Server.JoinNamesSnoc | server/server.cpp:79-91 | each further service adds ", " and its name, in registration order |
| Server.FirstCompatible | server/server.cpp:132-144 | the protocol identifier selects the first service, in registration order, whose identifier matches and whose checksum requirement the connection meets, and none exactly when no service is compatible |
| Server.ChecksumCompatibility | server/server.cpp:139-141 | a checksummed service is never chosen for a connection without checksums, and a checksummed connection finds a service at least as early as one without |
| Server.AnyAddress | server/server.cpp:201-209 | the any-address of a family is all zero bytes of that family's length |
| Server.FirstIndexOfFamily | server/server.cpp:163-199 | the index found is that of the first resolved address of the family, and none exactly when no result has it |
| Server.ChooseAddress | server/server.cpp:163-199 | open listens on the IP setting as an IPv4 literal, else as an IPv6 literal, else on the first IPv6 result of resolving it, else on the first IPv4 one; none when nothing resolves |
| Server.ResolvedPrefersV6 | server/server.cpp:163-199 | a resolved name yields an IPv4 address only when no result is IPv6, and nothing only when no result is either |
| Server.BindEndpoint | server/server.cpp:201-209 | with BIND_ONLY_GLOBAL_ADDRESS the exact address is bound, otherwise the any-address of its family; always on the given port |
| Server.CloseSpec | server/server.cpp:230-235 | close closes an open acceptor, keeps it on the port, and changes nothing else |
| Server.AcceptSpec | server/server.cpp:93-100 | accept arms one new accept exactly when the port has an acceptor, and changes nothing else |
| Server.OpenOutcome | server/server.cpp:156-228 | open ends listening on the chosen endpoint with an accept armed and no reopen pending, or with a reopen of the same port scheduled 15000 ms later and marked pending; the services never change |
| Server.OnAcceptConnected | server/server.cpp:102-130 | a connection is served only when its address is non-zero and the ban list accepts it, by the front service when that is single-socket; the next accept is then armed; a port without services drops the event |
| Server.FailuresScheduleOneReopen | server/server.cpp:102-130 | however many accepts fail, at most one reopen is outstanding, and an aborted accept changes nothing |
| Server.ServicePort.AddService | server/server.cpp:237-244 | the in-place add_service has the outcome AddServiceSpec states and changes only the services |
| Server.ServicePort.GetProtocolNames | server/server.cpp:79-91 | get_protocol_names returns the names JoinNames gives |
| Server.ServicePort.MakeProtocol | server/server.cpp:132-144 | make_protocol consumes the identifier byte as getByte does and returns the service FirstCompatible selects, or null |
| Server.ServicePort.Close | server/server.cpp:230-235 | the in-place close leaves the state CloseSpec gives |
| Server.ServicePort.OnStopServer | server/server.cpp:146-148 | onStopServer closes the port as close does |
| Server.ServicePort.Accept | server/server.cpp:93-100 | the in-place accept leaves the state AcceptSpec gives |
| Server.ServicePort.OnAccept | server/server.cpp:102-130 | the in-place onAccept leaves the state OnAcceptConnected and FailuresScheduleOneReopen describe |
| Server.ServicePort.Open | server/server.cpp:156-228 | the in-place open leaves the state OpenOutcome describes |
| Server.RunSpec | server/server.cpp:37-46 | run is refused while running; otherwise the manager starts running, and nothing else changes |
| Server.StopSpec | server/server.cpp:48-69 | stopping a stopped manager does nothing; otherwise every acceptor is told to stop, the acceptors are dropped and the shutdown timer is armed |
| Server.StopIdempotent | server/server.cpp:48-69 | stopping twice is stopping once, and a stopped manager can run again |
| Server.ServiceManager.Run | server/server.cpp:37-46 | the in-place run has the outcome RunSpec states |
| Server.ServiceManager.Stop | server/server.cpp:48-69 | the in-place stop leaves the state StopSpec gives |
| Decay.StopDecaySpec | items/decay/decay.cpp:57-92 | stopDecay never changes the pending check requests |
| Decay.StopDecayOutcome | items/decay/decay.cpp:57-92 | stopDecay changes only the bucket for the timestamp: it removes exactly one occurrence of the item when the bucket holds it, erases a bucket left empty, and otherwise changes nothing |
| Decay.StopDecayKeepsInv | items/decay/decay.cpp:57-92 | stopDecay keeps the queue invariant (every queued item is in exactly the bucket of its duration timestamp, keys positive), and a removed item is in no bucket any more |
| Decay.StartDecayOutcome | items/decay/decay.cpp:29-55 | a null item or a non-positive duration changes nothing; otherwise the item ends as the last entry of the bucket for now + duration, decaying with that timestamp and in no other bucket, with the invariant kept; one check is requested, of max(SCHEDULER_MINTICKS, duration), exactly when the new timestamp comes before every key left after the stopDecay step; every other item keeps its attributes, every bucket other than the old and the new timestamp is unchanged, and when the timestamp changes the new bucket is the old one with the item appended |
| Decay.PushKeepsInv | items/decay/decay.cpp:29-55 | appending an item that is in no bucket to the bucket for a positive key keeps the queue invariant |
| Decay.CollectDueMembers | items/decay/decay.cpp:100-110 | an item is collected exactly when it sits in a bucket whose key is at most the current time |
| Decay.Remaining | items/decay/decay.cpp:100-110 | the buckets left after the erase loop are exactly those with a key after the current time, with their contents unchanged |
| Decay.MarkNotDecaying | items/decay/decay.cpp:112-120 | every collected item is marked DECAYING_FALSE and every other item keeps its decay state |
| Decay.RescheduleDelay | items/decay/decay.cpp:122-126 | the next check delay is at least SCHEDULER_MINTICKS, and is the difference to the first key when that fits in 32 bits |
| Decay.CheckDecayOutcome | items/decay/decay.cpp:94-127 | checkDecay keeps exactly the buckets after now, marks exactly the items of the other buckets not decaying, requests a new check iff buckets remain, and keeps the queue invariant |
| Decay.DecayQueue.constructor | items/decay/decay.cpp:25-27 | the queue starts with no buckets, no tracked items and no requests, and satisfies the invariant |
| Decay.DecayQueue.StopDecay | items/decay/decay.cpp:57-92 | the in-place stopDecay leaves the state StopDecayOutcome describes |
| Decay.DecayQueue.StartDecay | items/decay/decay.cpp:29-55 | the in-place startDecay leaves the state StartDecayOutcome describes |
| Decay.DecayQueue.CheckDecay | items/decay/decay.cpp:94-127 | the in-place checkDecay returns the expired items and leaves the state CheckDecayOutcome describes |
| Decay.DecayQueue.CollectExpired | items/decay/decay.cpp:100-110 | the erase loop returns exactly the items CollectDueMembers characterises and leaves the buckets Remaining gives |
| Decay.DecayQueue.MarkExpired | items/decay/decay.cpp:112-120 | the marking loop leaves the item states MarkNotDecaying gives and nothing else changed |
| AttributeSlots.KindsAreDisjoint | items/functions/item/attribute.hpp:25-73 | no attribute kind is both an integer and a string kind, and kinds in neither list are neither |
| AttributeSlots.DefaultValue | items/functions/item/attribute.hpp:97-105 | a string kind starts as the empty string and every other kind as the integer 0 |
| AttributeSlots.NewAttributes | items/functions/item/attribute.hpp:78-79 | a new slot has the given kind and that kind's default value |
| AttributeSlots.SetInteger | items/functions/item/attribute.hpp:107-111 | storing an integer changes only an integer slot, and then to that integer |
| AttributeSlots.SetString | items/functions/item/attribute.hpp:112-116 | storing a string changes only a string slot, and then to that string |
| AttributeSlots.GetInteger | items/functions/item/attribute.hpp:117-123 | an integer slot yields its integer and a string slot yields 0 |
| AttributeSlots.GetString | items/functions/item/attribute.hpp:125-131 | a string slot yields its string and an integer slot yields the null pointer |
| AttributeSlots.SlotDiscipline | items/functions/item/attribute.hpp:78-131 | a new slot is well typed and both setters keep every slot well typed; what a setter stores the matching getter returns, and the setter of the other alternative is ignored |
| ItemAttributes.FindType | items/functions/item/attribute.cpp:55-75 | the index found is the first slot of the kind, and there is none exactly when no slot has the kind |
| ItemAttributes.Lookup | items/functions/item/attribute.cpp:55-64 | getAttribute finds a slot of the kind exactly when the vector has one |
| ItemAttributes.ByTypeSpec | items/functions/item/attribute.cpp:66-75 | the index returned holds a slot of the kind: the existing first one, or a default slot appended at the end |
| ItemAttributes.RemoveSpec | items/functions/item/attribute.cpp:97-106 | removeAttribute reports true exactly when the kind is present, and changes nothing when it is absent |
| ItemAttributes.StringSlotsHoldStrings | items/functions/item/attribute.cpp:27-39 | under the one-slot-per-kind invariant the slot of a string kind holds a string, so getAttributeString never dereferences a null pointer |
| ItemAttributes.LookupUnique | items/functions/item/attribute.cpp:55-64 | under the invariant the slot of a kind found at any index is the one getAttribute returns |
| ItemAttributes.ByTypeKeepsValid | items/functions/item/attribute.cpp:66-75 | get-or-create keeps one well-typed slot per kind |
| ItemAttributes.SetIntThenGet | items/functions/item/attribute.cpp:77-83 | setAttribute(int) ignores a non-integer kind; otherwise getAttributeValue returns the value afterwards, and every other kind keeps its slot |
| ItemAttributes.SetStringThenGet | items/functions/item/attribute.cpp:85-95 | setAttribute(string) ignores a non-string kind and an empty value; otherwise getAttributeString returns the value afterwards, and every other kind keeps its slot |
| ItemAttributes.LookupOtherKind | items/functions/item/attribute.cpp:55-75 | changing or appending the slot of one kind leaves the slot of every other kind where getAttribute finds it |
| ItemAttributes.FindTypeNone | items/functions/item/attribute.cpp:55-64 | without a slot of the kind, nothing is found |
| ItemAttributes.FindTypeAt | items/functions/item/attribute.cpp:55-64 | the first slot of a kind is the one found |
| ItemAttributes.MismatchDefaults | items/functions/item/attribute.cpp:27-53 | getAttributeValue and getAttributeString fall back to 0 and "" on a kind mismatch or an absent slot |
| ItemAttributes.RemoveOutcome | items/functions/item/attribute.cpp:97-106 | removeAttribute reports whether the kind was present; afterwards it is absent, every other kind keeps its slot though the last one moves into the gap, and the invariant holds |
| ItemAttributes.SetCustomSpec | items/functions/item/attribute.cpp:129-151 | a custom attribute is stored under the lower-cased key, overwriting only that key |
| ItemAttributes.GetCustomSpec | items/functions/item/attribute.cpp:122-127 | the lookup finds an attribute exactly when the lower-cased name is a key, and then returns its attribute |
| ItemAttributes.RemoveCustomSpec | items/functions/item/attribute.cpp:153-161 | removal reports whether the lower-cased name was a key and removes exactly that key |
| ItemAttributes.CustomKeysFoldCase | items/functions/item/attribute.cpp:122-151 | a custom attribute set under a name is found under every spelling that differs only in case, two such spellings overwrite each other, and other names are unaffected |
| ItemAttributes.RemoveCustomOutcome | items/functions/item/attribute.cpp:153-161 | after removal no spelling of the name finds it, an absent name leaves the map unchanged, and other names are unaffected |
| ItemAttributes.ItemAttribute.constructor | items/functions/item/attribute.hpp:140 | a new attribute holder has no slots and no custom attributes |
| ItemAttributes.ItemAttribute.GetAttribute | items/functions/item/attribute.cpp:55-64 | the in-place getAttribute returns what Lookup gives |
| ItemAttributes.ItemAttribute.GetAttributeString | items/functions/item/attribute.cpp:27-39 | the in-place getAttributeString returns the stored string or "" |
| ItemAttributes.ItemAttribute.GetAttributeValue | items/functions/item/attribute.cpp:41-53 | the in-place getAttributeValue returns the stored integer or 0 |
| ItemAttributes.ItemAttribute.GetAttributesByType | items/functions/item/attribute.cpp:66-75 | the in-place get-or-create keeps the invariant and the custom map, with the vector ByTypeSpec gives |
| ItemAttributes.ItemAttribute.SetAttributeInteger | items/functions/item/attribute.cpp:77-83 | the in-place integer setter keeps the invariant and the custom map, with the vector SetIntThenGet characterises |
| ItemAttributes.ItemAttribute.SetAttributeString | items/functions/item/attribute.cpp:85-95 | the in-place string setter keeps the invariant and the custom map, with the vector SetStringThenGet characterises |
| ItemAttributes.ItemAttribute.RemoveAttribute | items/functions/item/attribute.cpp:97-106 | the in-place swap-and-pop keeps the invariant and the custom map, with the outcome RemoveOutcome characterises |
| ItemAttributes.ItemAttribute.GetCustomAttribute | items/functions/item/attribute.cpp:122-127 | the in-place lookup returns what GetCustomSpec gives |
| ItemAttributes.ItemAttribute.SetCustomAttribute | items/functions/item/attribute.cpp:129-147 | each setCustomAttribute overload stores a CustomAttribute with the key as given, under the lower-cased key; the slot vector is unchanged |
| ItemAttributes.ItemAttribute.AddCustomAttribute | items/functions/item/attribute.cpp:149-151 | addCustomAttribute stores the given attribute under the lower-cased key; the slot vector is unchanged |
| ItemAttributes.ItemAttribute.RemoveCustomAttribute | items/functions/item/attribute.cpp:153-161 | the in-place removal has the outcome RemoveCustomOutcome characterises; the slot vector is unchanged |
| Webhooks.Decimal | server/network/webhook/webhook.cpp:123-151 | a non-negative number is written as at least one decimal digit, with no leading zero |
| Webhooks.DecimalRoundTrip | server/network/webhook/webhook.cpp:123-151 | the decimal text of a number reads back as that number |
| Webhooks.QuoteIndex | server/network/webhook/webhook.cpp:123-151 | the index is that of the first quote, or the length when the text has none |
| Webhooks.DigitRun | server/network/webhook/webhook.cpp:123-151 | the run counted is exactly the maximal run of leading digits |
| Webhooks.ReadFieldPresent | server/network/webhook/webhook.cpp:135-142 | a field written as its opening text, a quote-free value and its closing text reads back as that value, followed by what came after |
| Webhooks.ReadFieldAbsent | server/network/webhook/webhook.cpp:137-142 | a field whose opening text is absent reads as absent and consumes nothing |
| Webhooks.ReadColorOutcome | server/network/webhook/webhook.cpp:143-146 | the colour part reads back as the colour when it is non-negative and as absent otherwise, and then the embed closes |
| Webhooks.ReadFooterOutcome | server/network/webhook/webhook.cpp:140-142 | the footer field reads back as the footer text exactly when DISCORD_SEND_FOOTER is set |
| Webhooks.ReadDescriptionOutcome | server/network/webhook/webhook.cpp:137-139 | the description field reads back as the message exactly when the message is not empty |
| Webhooks.ParseEmbedSteps | server/network/webhook/webhook.cpp:133-146 | an embed payload whose title, description, footer and colour fields read one after another is parsed as that embed |
| Webhooks.EmbedRoundTrip | server/network/webhook/webhook.cpp:133-146 | every embed getPayload builds from quote-free texts parses back as the title, the description when the message is non-empty, the footer when enabled and the colour when non-negative |
| Webhooks.ContentRoundTrip | server/network/webhook/webhook.cpp:147-148 | a content payload holding quote-free text parses back as that content |
| Webhooks.PayloadRoundTrip | server/network/webhook/webhook.cpp:123-151 | every payload getPayload builds from quote-free texts parses back as the payload the embed and content rules select |
| Webhooks.ContentPayloadShape | server/network/webhook/webhook.cpp:147-148 | a plain payload is exactly the content object holding the message, or the title when the message is empty, whatever the colour and the footer setting |
| Webhooks.AfterResponse | server/network/webhook/webhook.cpp:153-189 | a delivery attempt on an empty queue leaves it empty |
| Webhooks.ResponseOutcome | server/network/webhook/webhook.cpp:153-189 | no response, 429, 504 or any code from 300 up keeps the queue as it was; any other code drops exactly the front task |
| Webhooks.FifoOrder | server/network/webhook/webhook.cpp:153-189 | whatever the responses, the tasks dropped are a prefix of the queue in order, and the queue left is the rest |
| Webhooks.EnqueueOutcome | server/network/webhook/webhook.cpp:59-81 | both sendMessage overloads queue nothing exactly when the url after defaulting to the configured one, the title (embed form) or the message is empty; otherwise they append exactly one task at the back with that url and the built payload |
| Webhooks.Webhook.constructor | server/network/webhook/webhook.cpp:25-41 | the queue starts empty |
| Webhooks.Webhook.SendPayload | server/network/webhook/webhook.cpp:54-57 | sendPayload appends the task at the back of the queue |
| Webhooks.Webhook.SendMessage | server/network/webhook/webhook.cpp:59-69 | the in-place sendMessage leaves the queue EnqueueOutcome describes |
| Webhooks.Webhook.SendPlainMessage | server/network/webhook/webhook.cpp:71-81 | the in-place plain sendMessage leaves the queue EnqueueOutcome describes |
| Webhooks.Webhook.SendWebhook | server/network/webhook/webhook.cpp:153-189 | one attempt sends the front task, or none when the queue is empty, and leaves the queue ResponseOutcome describes |
| Mailbox.QueryAdd | items/containers/mailbox/mailbox.cpp:26-32 | an item is admitted exactly when it has no owner and is a parcel (3503) or a letter (3505); a non-item is refused |
| Mailbox.QueryMaxCount | items/containers/mailbox/mailbox.cpp:34-37 | queryMaxCount always succeeds and reports the count, raised to 1 when it is 0 |
| Mailbox.QueryRemove | items/containers/mailbox/mailbox.cpp:39-41 | nothing can be taken out of a mailbox |
| Mailbox.AddThing | items/containers/mailbox/mailbox.cpp:51-60 | addThing hands on only the item of the thing it was given |
| Mailbox.AddThingMatchesQueryAdd | items/containers/mailbox/mailbox.cpp:47-60 | addThing forwards exactly the things queryAdd admits, and ignores a null thing |
| Mailbox.FirstReceiverMeaning | items/containers/mailbox/mailbox.cpp:129-141 | a container is addressed by the first label child, in order, that names a receiver, and has none when no label child does |
| Mailbox.LetterReceiver | items/containers/mailbox/mailbox.cpp:142-148 | a letter or label names a receiver exactly when its text is not empty: the first line with the surrounding spaces trimmed, which is the line itself when it has none |
| Mailbox.ReceiverIsTrimmedLine | items/containers/mailbox/mailbox.cpp:129-148 | whatever getReceiver finds, at any depth, is one line without surrounding spaces |
| Mailbox.GetReceiver | items/containers/mailbox/mailbox.cpp:129-148 | getReceiver succeeds exactly when a receiver is found and then sets the name to it; otherwise the name comes back unchanged |
| Mailbox.SendItemReceiver | items/containers/mailbox/mailbox.cpp:82-91 | sendItem goes on exactly when a receiver is found and it is not empty, and then addresses that receiver |
| TalkActions.Emplace | lua/creature/talkaction.cpp:37-40 | the key becomes the first entry exactly when the registry is empty or the key is below the old first key in std::less order; otherwise the old first entry stays first |
| TalkActions.EmplaceSorted | lua/creature/talkaction.cpp:37-40 | the registered entries stay in std::less order of their words |
| TalkActions.EmplaceMap | lua/creature/talkaction.cpp:37-40 | registration adds the words with their action exactly when the words are new, and changes nothing otherwise |
| TalkActions.EmplaceOutcome | lua/creature/talkaction.cpp:37-40 | registerLuaEvent reports true and stores the action exactly when the words were not registered; an existing registration is kept and the order is maintained |
| TalkActions.FindMeaning | lua/creature/talkaction.cpp:57-58 | find returns the first position where the word occurs, and npos only when it occurs nowhere |
| TalkActions.ParamOfCommand | lua/creature/talkaction.cpp:43-62 | when the first word is the command, the parameter is the rest of the text after the command and the spaces that follow it |
| TalkActions.ParamAfterPrefix | lua/creature/talkaction.cpp:57-62 | after the command, the parameter is the rest of the text with its leading spaces trimmed, or empty when nothing follows |
| TalkActions.CheckWordMeaning | lua/creature/talkaction.cpp:42-76 | checkWord rejects a text whose first word is not the command; otherwise, with `rest` the text after the command with its leading spaces trimmed, it accepts exactly when the group is high enough and the script accepts `rest` (separator " "), or, for any other separator, when `rest` is also empty or the separator, the script then being handed "" or the separator without its first character |
| TalkActions.Alternatives | lua/creature/talkaction.cpp:80-82 | a key without a comma stands for itself alone |
| TalkActions.FirstAcceptedWord | lua/creature/talkaction.cpp:82-86 | the inner loop finds the first of a key's words whose check accepts, and all earlier ones reject |
| TalkActions.TalkActions.constructor | lua/creature/talkaction.cpp:26 | a new registry is empty |
| TalkActions.TalkActions.Clear | lua/creature/talkaction.cpp:33-35 | clear empties the registry |
| TalkActions.TalkActions.RegisterLuaEvent | lua/creature/talkaction.cpp:37-40 | the in-place registration keeps the entries sorted and has the outcome EmplaceOutcome states |
| TalkActions.TalkActions.CheckPlayerCanSayTalkAction | lua/creature/talkaction.cpp:78-94 | BREAK exactly when some word accepts, fired at the first accepting word in key order and then in the order of a key's words; CONTINUE when none accepts |
| LuaEnvironment.NoIdReusedBeforeWrap | lua/scripts/lua_environment.cpp:113-117 | the ids ++lastAreaId hands out are consecutive modulo 2^32, so no id comes back within 2^32 creations |
| LuaEnvironment.CreateKeepsCovered | lua/scripts/lua_environment.cpp:113-117 | registering a new area id under an interface keeps every stored area object owned by some interface |
| LuaEnvironment.ClearKeepsCovered | lua/scripts/lua_environment.cpp:119-132 | clearing one interface's area objects keeps the others owned |
| LuaEnvironment.Reversed | lua/scripts/lua_environment.cpp:147-150 | std::views::reverse yields the parameters last first |
| LuaEnvironment.ReversedMultiset | lua/scripts/lua_environment.cpp:147-150 | reversing keeps exactly the same references |
| LuaEnvironment.TimerReferencesBalanced | lua/scripts/lua_environment.cpp:143-167 | every reference a timer event pushes is released exactly once afterwards, and the first argument ends on top of the stack |
| LuaEnvironment.NoIdsWhenAllEmpty | lua/scripts/lua_environment.cpp:71-95 | once every interface's list is empty no area id is registered |
| LuaEnvironment.LuaEnvironment.constructor | lua/scripts/lua_environment.cpp:34-35 | a new environment has no area objects, interfaces or timer events, no state and is not shutting down |
| LuaEnvironment.LuaEnvironment.CreateAreaObject | lua/scripts/lua_environment.cpp:113-117 | createAreaObject returns the next id modulo 2^32, stores an object under it and appends it to the interface's list; nothing else changes |
| LuaEnvironment.LuaEnvironment.ClearAreaObjects | lua/scripts/lua_environment.cpp:119-132 | the interface's objects are erased and its list emptied; an unknown interface changes nothing |
| LuaEnvironment.LuaEnvironment.ExecuteTimerEvent | lua/scripts/lua_environment.cpp:134-168 | an unknown index does nothing; a known event is removed before it runs, its references are pushed in PushOrder and released in ReleaseOrder, and the script runs exactly when an environment can be reserved |
| LuaEnvironment.LuaEnvironment.InitState | lua/scripts/lua_environment.cpp:57-63 | initState opens the state and sets the running event id to EVENT_ID_USER |
| LuaEnvironment.LuaEnvironment.GetLuaState | lua/scripts/lua_environment.cpp:45-55 | while shutting down the state is returned as it is; otherwise a missing state is created first |
| LuaEnvironment.LuaEnvironment.CloseState | lua/scripts/lua_environment.cpp:71-95 | closeState is false without a state; otherwise every interface's area objects are cleared, the interface and timer tables emptied and the state closed |
| LuaEnvironment.LuaEnvironment.ReInitState | lua/scripts/lua_environment.cpp:65-69 | reInitState closes a state and its tables, then opens a fresh one |
| LuaEnvironment.LuaEnvironment.Destroy | lua/scripts/lua_environment.cpp:37-43 | the destructor marks the shutdown and then closes the state |
| Storages.WrappedKeyEscapesRange | creatures/players/storages/storages.cpp:62-69 | as written, key 10 in the range 4294967290-4294967295 wraps to 4 and passes the end check, so a key below the range is stored |
| Storages.StoredKey | creatures/players/storages/storages.cpp:62-69 | with the wrap-around corrected, a key is stored as key + start exactly when that sum does not pass the end; the uint32_t sum as written is WrappedKeyEscapesRange |
| Storages.StoredKeyInRange | creatures/players/storages/storages.cpp:62-69 | a stored key lies inside its range, every key of the range is reachable, and the written test agrees with it unless the 32-bit sum wraps |
| Storages.ContainingRangeNotReported | creatures/players/storages/storages.cpp:45-50 | as written, a range 5-30 that strictly contains an earlier range 10-20 is not reported as a conflict, though key 15 lies in both |
| Storages.IntersectsMeansSharedKey | creatures/players/storages/storages.cpp:45-50 | the corrected conflict test holds exactly when some key lies in both ranges, and the written test never reports two well-formed ranges that share no key |
| Storages.ConflictWarningsMeaning | creatures/players/storages/storages.cpp:45-50 | with the corrected intersection test, a conflict is reported exactly when an earlier range shares a key with the new one, and the warning names the new range; the endpoint-only test as written is ContainingRangeNotReported |
| Storages.StoreAllUntouched | creatures/players/storages/storages.cpp:54-74 | under the corrected key test, names a range does not store in range keep their entries |
| Storages.StoreAllLast | creatures/players/storages/storages.cpp:54-74 | under the corrected key test, a name's entry after a range is its last in-range storage there, shifted by the start |
| Storages.Bounds | creatures/players/storages/storages.cpp:38-52 | the ranges vector holds the start and end of every range, in document order |
| Storages.LoadedKeysInRanges | creatures/players/storages/storages.cpp:27-78 | under the corrected key test, loaded into an empty map, every stored key lies inside the range of some storage with that name; the source as written can store a wrapped key outside every range (WrappedKeyEscapesRange) |
| Storages.StoreAllInRange | creatures/players/storages/storages.cpp:54-74 | under the corrected key test, a range either leaves an entry as it was or sets it to a key inside the range |
| Storages.LaterRangeWins | creatures/players/storages/storages.cpp:45-52 | a range that conflicts with earlier ones is still loaded in full, so its in-range storage binds the name whatever came before |
| Storages.Storages.constructor | creatures/players/storages/storages.cpp:23-25 | the storage map starts empty |
| Storages.Storages.LoadStorages | creatures/players/storages/storages.cpp:54-74 | the storage loop of one range, with the corrected key test, leaves the map StoreAll gives and logs the warnings StorageWarnings gives |
| Storages.Storages.LoadFromXml | creatures/players/storages/storages.cpp:27-78 | false with the map untouched when the document did not parse; otherwise true, with the ranges loaded in order on top of the map through the corrected key and conflict tests |
| Vocations.AbsorbAfter | creatures/players/vocations/vocation.cpp:210-308 | an absorb child keeps all COMBAT_COUNT percentage slots |
| Vocations.BlocksCompose | creatures/players/vocations/vocation.cpp:210-308 | the percentall, percentelements, percentmagic and per-type blocks applied in document order add, in int16 arithmetic, up to the child's total gain on every slot |
| Vocations.AbsorbOrderIrrelevant | creatures/players/vocations/vocation.cpp:210-308 | two absorb children give the same percentages in either order |
| Vocations.AbsorbSlots | creatures/players/vocations/vocation.cpp:212-241 | no attribute reaches the undefined slot; percentall reaches every other slot, percentelements exactly the four elements, and percentmagic those plus holy and death |
| Vocations.CastU64 | creatures/players/vocations/vocation.cpp:386 | the cast of a double to uint64_t truncates toward zero wherever C++ defines it |
| Vocations.TotalSkillTriesMonotone | creatures/players/vocations/vocation.cpp:358-389 | levels up to the minimum skill level need no tries, and the total grows with the level |
| Vocations.TotalSkillTriesFits | creatures/players/vocations/vocation.cpp:358-374 | the 128-bit skill-tries total cannot overflow for a 16-bit level |
| Vocations.TotalManaFits | creatures/players/vocations/vocation.cpp:391-404 | the 128-bit mana total cannot overflow for a 32-bit magic level |
| Vocations.WrappedCounter | creatures/players/vocations/vocation.cpp:369 | the counter of an unsigned for loop stays below its modulus |
| Vocations.WrappedCounterCounts | creatures/players/vocations/vocation.cpp:369 | before the counter reaches the modulus it just counts |
| Vocations.WrappedCounterSplits | creatures/players/vocations/vocation.cpp:369 | counting a + b increments is counting a, then b more |
| Vocations.WrappedCounterPeriod | creatures/players/vocations/vocation.cpp:369 | after modulus increments the counter is back at its start |
| Vocations.SkillLoopNeverEnds | creatures/players/vocations/vocation.cpp:369 | as written, at level 65535 the uint16_t counter satisfies i <= level after every increment and returns to its start after 2^16 of them, so the loop never ends |
| Vocations.ManaLoopNeverEnds | creatures/players/vocations/vocation.cpp:400 | as written, at magic level 2^32 - 1 the uint32_t counter satisfies i <= magLevel after every increment and returns to 1, so the loop never ends |
| Vocations.GainCapHundredfold | creatures/players/vocations/vocation.cpp:77-79 | the capacity gain is the attribute times 100, wrapping modulo 2^32 above 42949672 |
| Vocations.LoadedIdsSnoc | creatures/players/vocations/vocation.cpp:48-55 | a node adds its id, if it has one, to the ids loaded before it |
| Vocations.LoadInfoSnoc | creatures/players/vocations/vocation.cpp:48-55 | one more node changes only the vocation of its own id, by applying its attributes |
| Vocations.ChildrenKeepHeader | creatures/players/vocations/vocation.cpp:137-309 | children change only skill multipliers and absorb percentages, and without a skill child of a valid id the multipliers stay as they were |
| Vocations.LastNameWins | creatures/players/vocations/vocation.cpp:54-60 | a vocation's name is the one given by the last node with its id that names it, since emplace keeps the entry an earlier node made |
| Vocations.AbsentIdDefault | creatures/players/vocations/vocation.cpp:48-55 | an id no node carries has no loaded changes: it keeps the fresh values |
| Vocations.UnnamedKeepsDefault | creatures/players/vocations/vocation.cpp:54-60 | a vocation whose nodes never give a name keeps the empty name |
| Vocations.Vocation.constructor | creatures/players/vocations/vocation.cpp:54-55 | a new vocation has the given id, the default values and empty caches |
| Vocations.Vocation.GetAbsorbPercent | creatures/players/vocations/vocation.cpp:524-526 | getAbsorbPercent returns the slot's percentage |
| Vocations.Vocation.IncreaseAbsorbPercent | creatures/players/vocations/vocation.cpp:528-530 | one slot grows by the value, wrapping in int16, and no other slot changes |
| Vocations.Vocation.IncreaseIfPresent | creatures/players/vocations/vocation.cpp:243-307 | one increaseAbsorbPercent call made only when the attribute is present |
| Vocations.Vocation.AbsorbAll | creatures/players/vocations/vocation.cpp:212-221 | percentall adds its value, in int16, to every slot except the undefined one |
| Vocations.Vocation.AbsorbElements | creatures/players/vocations/vocation.cpp:223-230 | percentelements adds its value to the slots of the four elements only |
| Vocations.Vocation.AbsorbMagic | creatures/players/vocations/vocation.cpp:232-241 | percentmagic adds its value to the four elements and holy and death only |
| Vocations.Vocation.AbsorbPerType | creatures/players/vocations/vocation.cpp:243-307 | each per-type attribute adds its value to its own combat type only |
| Vocations.Vocation.LoadAbsorb | creatures/players/vocations/vocation.cpp:210-308 | an absorb child leaves the percentages AbsorbAfter gives |
| Vocations.Vocation.LoadNode | creatures/players/vocations/vocation.cpp:57-309 | the loader's loop body leaves the vocation ApplyNode gives |
| Vocations.Vocation.LoadChildren | creatures/players/vocations/vocation.cpp:137-309 | the child loop leaves the vocation ApplyChildren gives |
| Vocations.Vocation.LoadChild | creatures/players/vocations/vocation.cpp:138-308 | a skill child with a valid id sets that multiplier, an absorb child adds to the percentages, and an ignored child changes nothing |
| Vocations.Vocation.GetReqSkillTries | creatures/players/vocations/vocation.cpp:376-389 | the memoised requirement is the one ReqSkillTries gives, with only the per-level cache changed |
| Vocations.Vocation.GetTotalSkillTries | creatures/players/vocations/vocation.cpp:358-374 | with a counter wide enough to pass the level, the total is the sum TotalSkillTries gives, and TotalSkillTriesMonotone and TotalSkillTriesFits hold of it |
| Vocations.Vocation.GetReqMana | creatures/players/vocations/vocation.cpp:406-418 | the memoised requirement is the one ReqMana gives, with only the per-level cache changed |
| Vocations.Vocation.GetTotalMana | creatures/players/vocations/vocation.cpp:391-404 | with a counter wide enough to pass the magic level, the total is the sum TotalMana gives, and it is never stored in cacheManaTotal |
| Vocations.Vocations.constructor | creatures/players/vocations/vocation.cpp:32-34 | the table starts empty |
| Vocations.Vocations.GetVocation | creatures/players/vocations/vocation.cpp:314-323 | getVocation returns the entry of the id, and none exactly when the id is absent |
| Vocations.Vocations.GetVocationId | creatures/players/vocations/vocation.cpp:329-336 | getVocationId returns the smallest id whose name matches ignoring case, and VOCATION_NONE when none does |
| Vocations.Vocations.GetPromotedVocation | creatures/players/vocations/vocation.cpp:338-345 | getPromotedVocation returns the smallest other id promoted from the vocation, and VOCATION_NONE when there is none |
| Vocations.Vocations.EntryFor | creatures/players/vocations/vocation.cpp:54-55 | emplace yields the entry already stored for the id or a new default one, and keeps every other entry |
| Vocations.Vocations.OthersKeep | creatures/players/vocations/vocation.cpp:48-55 | a node leaves the entries of the other ids as they were |
| Vocations.Vocations.LoadEntry | creatures/players/vocations/vocation.cpp:48-309 | one loop step loads the node into the entry of its id and skips a node without an id, keeping the table equal to LoadInfo of the nodes so far |
| Vocations.Vocations.LoadFromXml | creatures/players/vocations/vocation.cpp:36-312 | true exactly when the document parsed; then every loaded id has the entry LoadInfo gives, and a failed parse loads nothing |
| Vocations.Vocations.Reload | creatures/players/vocations/vocation.cpp:27-30 | reload empties the table and loads it again, with the outcome LoadFromXml states |
| Groups.FlagMapMeaning | creatures/players/grouping/groups.cpp:27-40 | a lower-cased name is in the parse map exactly when some flag name lower-cases to it, and it maps to the last such flag, which is a valid flag number |
| Groups.FlagMapInRange | creatures/players/grouping/groups.cpp:27-40 | every value of the parse map is below the number of flags, so it indexes a group's flags |
| Groups.InitFlagMap | creatures/players/grouping/groups.cpp:27-40 | the initialisation loop builds exactly the parse map FlagMapMeaning characterises |
| Groups.FlagLastEscapesFlags | creatures/players/grouping/groups.cpp:27-40 | as written, the loop also parses FlagLast, as "flaglast", to the number one past the last flag of a group |
| Groups.NumericFlags | creatures/players/grouping/groups.cpp:97-102 | the numeric attribute grants one flag per flag number |
| Groups.BitsRoundTrip | creatures/players/grouping/groups.cpp:97-102 | the first k flags read back as the attribute value modulo 2^k |
| Groups.HighBitsClear | creatures/players/grouping/groups.cpp:97-102 | a value below 2^j grants no flag at j or above |
| Groups.NumericFlagsOfByte | creatures/players/grouping/groups.cpp:97-102 | the numeric attribute is cut to its low byte: the first eight flags spell that byte and every later flag is clear |
| Groups.DecodeFlags | creatures/players/grouping/groups.cpp:97-102 | the bitset loop sets exactly the flags NumericFlags gives |
| Groups.ParsedFlags | creatures/players/grouping/groups.cpp:59-75 | parsing keeps the number of flags |
| Groups.ParsedFlagsMeaning | creatures/players/grouping/groups.cpp:59-75 | a flag is set after parsing exactly when it was set before or a child with a truthy first attribute names it ignoring case; unknown names change nothing and nothing is cleared |
| Groups.ParseGroupFlags | creatures/players/grouping/groups.cpp:59-75 | without a flags child the flags are unchanged; otherwise they are what ParsedFlagsMeaning characterises |
| Groups.GroupOf | creatures/players/grouping/groups.cpp:87-105 | a group element loads a group with its id and one entry per flag |
| Groups.GroupsOf | creatures/players/grouping/groups.cpp:86-108 | the elements load one group each, in document order |
| Groups.GroupFlagMeaning | creatures/players/grouping/groups.cpp:87-105 | a group's flag is granted exactly when its bit is set in the low byte of the numeric attribute or a child of flags with a truthy first attribute names it |
| Groups.FindGroup | creatures/players/grouping/groups.cpp:113-121 | the search finds the first group with the id, and nothing exactly when no group has it |
| Groups.FindLoadedGroup | creatures/players/grouping/groups.cpp:77-121 | after loading, looking an id up finds the group of the first element with that id, and nothing when no element has it |
| Groups.Groups.constructor | creatures/players/grouping/groups.cpp:27-40 | the table starts with no groups and the parse map FlagMapMeaning characterises, built over the real flags without FlagLast (the corrected map; the as-written one is FlagLastEscapesFlags) |
| Groups.Groups.GetGroup | creatures/players/grouping/groups.cpp:113-121 | getGroup returns the first group with the id, and null exactly when no group has it |
| Groups.Groups.LoadGroup | creatures/players/grouping/groups.cpp:87-105 | one element loads the group GroupFlagMeaning characterises |
| Groups.Groups.Load | creatures/players/grouping/groups.cpp:77-111 | a document that fails to parse loads nothing; otherwise one group per element is appended, in document order |
| Groups.Groups.Reload | creatures/players/grouping/groups.cpp:53-57 | the table is emptied, then loaded again, with the outcome Load states |
| CrystalServer.SetWorldType | crystalserver.cpp:140-162 | the configured text, lower-cased, picks the world type exactly when it is one of the listed spellings; otherwise initialisation fails with a message naming the text as configured |
| CrystalServer.WorldTypeNamesSelect | crystalserver.cpp:140-162 | each offered name (open, optional, hardcore), in any case, selects its world type |
| CrystalServer.WorldTypeIgnoresCase | crystalserver.cpp:140-162 | configurations equal ignoring case succeed alike and then with the same world type |
| CrystalServer.WorldTypeSpellings | crystalserver.cpp:144-153 | every spelling in the three lists selects the world type of its list, whatever the order of the tests |
| CrystalServer.SetupHousesRent | crystalserver.cpp:180-197 | the period is the named one the lower-cased text spells, and rent is never charged exactly when it spells none of the four |
| CrystalServer.RentPeriodRoundTrip | crystalserver.cpp:180-197 | every named period, in any case, reads back as itself |
| CrystalServer.ModulesLoadHelper | crystalserver.cpp:355-360 | a module that loads lets start-up go on; one that fails stops it with the message naming the module |
| CrystalServer.LoadModulesMeaning | crystalserver.cpp:317-353 | loading fails exactly when some module fails, and then with the first failing module's message |
| CrystalServer.Initialize | crystalserver.cpp:62-118 | a start-up that succeeds has set the world type from the configuration and the rent period setupHousesRent gives |
| CrystalServer.InitializeSucceeds | crystalserver.cpp:62-118 | initialize succeeds exactly when the configuration and every module load, the database connects, the world type is known and the maps load |
| CrystalServer.Run | crystalserver.cpp:42-60 | run returns EXIT_SUCCESS or EXIT_FAILURE |
| CrystalServer.RunExitCode | crystalserver.cpp:42-60 | the server exits successfully exactly when every start-up step succeeds and the main loop ends without an exception; an unknown world type alone is enough to fail |
| Text.ToLower | crystalserver.cpp:141 | asLowerCaseString lower-cases every character and keeps the length |
| Text.ToLowerIdempotent | items/functions/item/attribute.cpp:122-131 | lower-casing twice is lower-casing once, so a stored lower-cased key is found under its own name |
| Text.TrimLeft | lua/creature/talkaction.cpp:59-62 | trim_left removes exactly the leading run of the character and leaves a suffix of the text |
| Text.Trim | items/containers/mailbox/mailbox.cpp:146-147 | trimString leaves no space at either end and leaves a text without surrounding spaces unchanged |
| Text.FirstLine | items/containers/mailbox/mailbox.cpp:146 | getFirstLine is the prefix of the text before its first newline, and holds no newline |
| Text.FirstWord | lua/creature/talkaction.cpp:43-44 | the first word is the prefix of the text before its first whitespace character |
| Text.SplitWords | lua/creature/talkaction.cpp:80-81 | split yields the pieces between commas, each trimmed of surrounding spaces, without a final empty piece |
| Seqs.IndexOf | items/decay/decay.cpp:78-90 | the scan finds the first index holding the item, and none exactly when the item is absent |
| Seqs.SwapRemove | items/decay/decay.cpp:85-86 | moving the last element into the gap and popping the back shortens by one and keeps every other position |
| Seqs.SwapRemoveMultiset | items/decay/decay.cpp:85-86 | swap-and-pop loses exactly one occurrence of the removed element |
| Seqs.SwapRemoveElements | items/functions/item/attribute.cpp:100-102 | in a sequence without repetition swap-and-pop keeps every other element and no repetition |

## Left out

- Logging: every `g_logger()` call is dropped. Only the log decisions that change the outcome are kept, such as the storage warnings.
- The XML documents of vocations, groups and storages reach the model already parsed. pugixml, `pugi::cast` and `as_uint` are not part of this model: their converted values are the inputs.
- Header constants: the model fixes NETWORKMESSAGE_MAXSIZE = 24590, HEADER_LENGTH = 2, CHECKSUM_LENGTH = 4, XTEA_MULTIPLE = 8, MAX_BODY_LENGTH = 24576, INITIAL_BUFFER_POSITION = 8, MsgSize_t = uint16_t, SCHEDULER_MINTICKS = 50, EVENT_ID_USER = 1000, ITEM_PARCEL = 3503, ITEM_LETTER = 3505, ITEM_LABEL = 3507, SKILL_LAST = 6, MIN_SKILL_LEVEL = 10 and the combat-type numbering. The headers that define them are not part of this model.
- `addDouble` / `getDouble` (networkmessage.cpp:193-207) are left out: they are floating point.
- The ISO-8859-1 / UTF-8 conversion of `addString` and `getString` is the identity on byte strings, because boost::locale is not part of this model.
- Network.GetU16Spec: `get<T>` is defined in a header that is not part of this model. Its 16-bit instance is modelled with the corrected read guard, canRead plus the array capacity.
- Network.GetStringSpec: the model uses the corrected capacity check, so the as-written over-read exists only in CanReadIgnoresCapacity (see Findings).
- Network.AddPaddingBytesSpec: the model uses the corrected maximum-size guard, so the as-written wrap exists only in PaddingGuardWraps (see Findings).
- Server network I/O: asio sockets, the acceptor object, the resolver, the ban list, ConnectionManager, `io_service.run` and the death timer are not modelled. Their outcomes are inputs (`OpenInputs`, `AcceptOutcome`). What the port asks of them is recorded as events.
- Server scheduling: `scheduleEvent` calls are recorded requests. Their firing order is not modelled, because the dispatcher is not part of this model.
- `ServicePort::openAcceptor` (server.cpp:150-154) is modelled only as the `open` it calls. The weak pointer expiring is not modelled.
- `ServiceManager::add` is not modelled: it lives in server.hpp, which is not part of this model. The constructors of ServicePort and ServiceManager are also declared there. Server.ServicePort.constructor gives a port with no services, port 0 and no acceptor. Server.ServiceManager.constructor gives a stopped manager whose acceptor set is a parameter, standing in for the ports `add` opens. Neither has a row, because the code they follow is not shown.
- Network.NetworkMessage.constructor: the constructor is in networkmessage.hpp, which is not part of this model. The model starts a message with a zeroed buffer, position INITIAL_BUFFER_POSITION and length 0, and has no row for it.
- Decay side effects are left out, because they are game-world calls: `internalDecayItem` (decay.cpp:129-197), the `setDuration` refresh, the DECAYSTATE attribute removal and `canDecay`. CheckDecay marks every expired item DECAYING_FALSE, which both branches do.
- Decay clock and timer: the clock is the parameter `now`, and `eventId` is not modelled.
- Attribute storage: the `shared_ptr<std::string>` of a string slot is modelled as the string value. Aliasing of that pointer is not modelled.
- The content of a CustomAttribute is opaque, because custom_attribute.hpp is not part of this model.
- Webhook transport and threading are left out, because they are HTTP I/O and concurrency: libcurl, `sendRequest`, `writeCallback`, the constructor's curl set-up, `run`'s thread-pool and rescheduling loop, and `taskLock`.
- Webhook footer time: the time of the footer is a parameter, because `getTimeNow` and `formatDate` read the clock.
- Webhooks.PayloadRoundTrip: holds only for texts without a double quote. getPayload does not escape JSON, so a quote in a text breaks the payload, and this is not modelled further.
- `executeSay` and the other TalkAction members (`loadScriptId`, `getScriptInterface`, the script id and group type accessors) are Lua bindings. The script's answer is the oracle parameter `executeSay`.
- The text helpers (`asLowerCaseString`, `trim_left`, `trimString`, `getFirstLine`, `split`) come from tools.cpp, which is not part of this model. They are modelled with ASCII semantics in the C locale.
- `sendItem`'s effects after its guards are game-world effects and are not modelled: looking up the player, moving the item to the inbox, stamping it and saving the player.
- `Mailbox::queryDestination`, `updateThing`, `replaceThing`, `removeThing` and the notification forwards are left out. They take no decisions.
- The Lua interpreter is not modelled, because these are Lua C API bindings: `lua_rawgeti`, `luaL_unref`, `callFunction`, `collectGarbage`, `getTestInterface` and the `cacheFiles` cache of `closeState`. Registry references are numbers, and the timer-event push and release orders are returned as sequences.
- `luaL_newstate` and `Lua::load` are Lua C API calls. initState is modelled as always opening the state, as its unconditional `return true` reports.
- Storages.StoredKey: the corrected key test, checking key + start against the end without wrap-around. storages.cpp:62-69 adds in uint32_t, so key 10 of the range 4294967290-4294967295 is stored as 4. That as-written behaviour exists only in WrappedKeyEscapesRange (see Findings).
- Storages.ConflictWarningsMeaning: about the corrected conflict test Intersects. storages.cpp:45-50 tests only the new range's endpoints and logs nothing for a range that contains an earlier one. That as-written test exists only in ContainingRangeNotReported (see Findings).
- Storages.StoreAllUntouched: about StoreAll, which uses the corrected key test and so skips the wrapped keys the source stores.
- Storages.StoreAllLast: about StoreAll with the corrected key test; a wrapped key the source stores does not count as an in-range storage here.
- Storages.StoreAllInRange: about StoreAll with the corrected key test; the source as written can set an entry to a wrapped key below the range.
- Storages.LoadedKeysInRanges: holds for LoadAll with the corrected key test only. The source as written can store a key outside every range.
- Storages.Storages.LoadStorages: uses the corrected key test, comparing key + start with the end in unbounded integers, and emits KeyOutsideRange for a wrapped key the source stores.
- Storages.Storages.LoadFromXml: loads through the corrected key test and the corrected conflict test, so it warns for a containing range and skips wrapped keys, where the source does neither.
- Storages.StoreAll, Storages.StorageWarnings, Storages.LoadAll, Storages.ConflictWarnings and Storages.Storages.CheckConflicts: these members, behind the ones above, use the same corrected tests.
- Groups.Groups.constructor: builds the parse map over the real flags only, without FlagLast. groups.cpp:30 iterates every enumerator, FlagLast included; that as-written map exists only in FlagLastEscapesFlags (see Findings).
- Vocation arithmetic: floating-point values (multipliers and the `pow`-based per-level requirements) are exact reals.
- Vocations.CastU64: the casts C++ leaves undefined (a negative double or one of 2^64 and above) saturate. The behaviour there is undefined anyway.
- Vocation loader attributes: only name, gaincap, manamultiplier, fromvoc and the skill and absorb children are followed. The other attributes of vocation.cpp:57-136 and 154-209 only copy a converted value into a field.
- The simple vocation getters (vocation.cpp:350-356 and 420-494) are not modelled: they only return a field.
- `getSupremeGemModifiers` and `getWheelGemId` (vocation.cpp:496-522) are not modelled: they convert enum names through magic_enum, which is not part of this model.
- Vocations.Vocations.LoadFromXml: requires an empty table. The source also runs on a full one, but it is only ever called at start-up and from Reload, after `clear`.
- Vocations.Vocation.GetTotalSkillTries: uses a counter wide enough to pass the level. The uint16_t counter as written never ends at level 65535 (SkillLoopNeverEnds, in Findings).
- Vocations.Vocation.GetTotalMana: uses a counter wide enough to pass the level. The uint32_t counter as written never ends at magic level 2^32 - 1 (ManaLoopNeverEnds, in Findings).
- The PlayerFlags_t enumeration is a parameter, because its header is not part of this model. `getFlagNumber` / `getFlagFromNumber` (groups.cpp:45-51) are the identity on flag numbers, as they are for a contiguous enumeration starting at 0.
- Start-up effects in `CrystalServer::initialize` are left out: the console and logging, RSA start, `std::async`, the game-state setters, market maintenance, house-item transfer and webhook messages.
- Start-up loaders: the internals of `loadConfigLua`, `initializeDatabase`, `loadModules` and `loadMaps` are left out. Each appears only as the failure it can raise.
- Shutdown and the main loop: `mainLoop`, `shutdown` with its `std::exit`, and `getchar` / `isatty` are left out. The main loop appears only as whether it throws.

## Findings

| source | as written | input that shows it | evidently intended | confidence | as-written member | corrected member |
|---|---|---|---|---|---|---|
| server/network/message/networkmessage.cpp:97-121 | getString copies `stringLen` bytes once canRead(stringLen) and stringLen <= NETWORKMESSAGE_MAXSIZE hold; canRead compares only with the logical length | a length of 65535 (as setLength allows) at position 24580, reading 100 bytes: canRead holds, and the copy runs past the 24590-byte array | the copy is also checked against the array capacity, as every writer is | medium, not executed | Network.CanReadIgnoresCapacity | Network.CorrectedReadsStayInBuffer (on Network.GetStringSpec) |
| server/network/message/networkmessage.cpp:243-252 | addPaddingBytes is guarded only by canAdd(n), whose `size + position` is computed in size_t | n = 2^64 - 8 at position 8: the sum wraps to 0, canAdd holds, and std::fill writes far past the array | the NETWORKMESSAGE_MAXSIZE check that addBytes has | medium, not executed | Network.PaddingGuardWraps | Network.CorrectedPaddingStaysInBody (on Network.AddPaddingBytesSpec) |
| creatures/players/storages/storages.cpp:62-69 | `key += start` in uint32_t, then `key > end` | range 4294967290-4294967295 with key 10: the key wraps to 4, passes the end check and is stored outside the range | the shifted key is checked without wrap-around, so only keys inside the range are stored | medium, not executed | Storages.WrappedKeyEscapesRange | Storages.StoredKey and Storages.StoredKeyInRange |
| creatures/players/storages/storages.cpp:45-50 | the conflict test checks only whether the new range's start or end lies in an earlier range | an earlier range 10-20, then a range 5-30: neither end lies in 10-20, so no conflict is reported, though key 15 is in both | a warning whenever the two ranges share a key | medium, not executed | Storages.ContainingRangeNotReported | Storages.IntersectsMeansSharedKey (on Storages.Intersects, used by Storages.ConflictWarningsMeaning) |
| creatures/players/vocations/vocation.cpp:369 | `for (uint16_t i = minSkillLevel; i <= level; ++i)` | level 65535: i <= level holds for every uint16_t value, so the loop never ends | a counter wider than the level type, so the sum ends after level - 9 steps | high, not executed | Vocations.SkillLoopNeverEnds | Vocations.Vocation.GetTotalSkillTries |
| creatures/players/vocations/vocation.cpp:400 | `for (uint32_t i = 1; i <= magLevel; ++i)` | magLevel 4294967295: i <= magLevel holds for every uint32_t value, so the loop never ends | a counter wider than the level type | high, not executed | Vocations.ManaLoopNeverEnds | Vocations.Vocation.GetTotalMana |
| creatures/players/grouping/groups.cpp:27-40, 67-71 | the parse map is built over every PlayerFlags_t enumerator, FlagLast included, and parseGroupFlags writes `group.flags[number]` for any name found in it | the flags child `<flag flaglast="1"/>`: "flaglast" is found and the write lands at index FlagLast, one past a flags array of FlagLast entries | only the real flags, those before FlagLast, are parseable | low, not executed: the declaration of the flags array is in groups.hpp, which is not part of this model | Groups.FlagLastEscapesFlags | Groups.InitFlagMap with Groups.FlagMapMeaning and Groups.FlagMapInRange |
