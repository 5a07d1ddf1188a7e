# Verified models of the DPI tunnel and the libraries it vendors

A Dafny project that models the self-contained codecs and state machines of the repository and proves
what they promise. `dafny verify dfyconfig.toml` checks all of it. Nothing is executed.

What runs in place in the source is modelled in place: classes with the source's fields, methods with
the source's loops. Each method is proved against a specification function or predicate, and the main
results are lemmas about those, for every input or every run.

## What is modelled

**DNS messages (dnslib).** `DnsBuffer.Buffer` is the cursor over a byte array with its stack of visited
positions. Its reader follows compression pointers; that this ends is proved with the positions not yet
visited as measure. Its writer lays a name out in local arrays and searches the octets already written
for each suffix. `DnsNames` says what a pointer chain denotes, `DnsCompression` proves the round trip of
names under compression (section 4.1.4 of RFC 1035), `DnsFields`, `DnsRecords` and `DnsMessage` build
records with back-patched RDLENGTH and whole messages on top. The back-patching may change octets that a
pointer leads to: `DnsCopies`, `DnsExact` and `DnsOverlaps` say exactly when that spoils a name.
`DnsRoundTrip` is about messages that fit the wire format, `DnsDecoded` about what the decoder can ever
return, and together they say in `DnsReadsBack` exactly which messages decode to themselves. `DnsTypes` says
member by member what RDATA each type has, `DnsHeader` the same of the header octet by octet.
`DnsEmptyLabels` is about names such as "a..b", `DnsUndecoded` about WKS records. `DnsCodec` has the
methods that encode and decode messages, `DnsExamples`, `DnsLimits`, `DnsMessageExamples` and `DnsLost` the
octets that show each failure.

**The libnl object cache.** `NlCache` gives every operation as a function on memory (objects and caches by
address) that crashes on BUG() and on every use of freed memory. `NlCacheSafety` holds the invariant,
`NlCacheRuns` and `NlCacheSteps` carry it through every operation and every run, `NlContents` and
`NlCacheResync` prove the mark-and-sweep resynchronization faithful, `NlCacheDuplicates` that its condition is
exact, `NlCacheCodes` what each operation returns, `NlCacheFinding` when the shortcut of nl_cache_find is
right, and `NlCacheReached` has runs from empty memory into each failure. `NlCacheLibrary.Library` performs
the operations in place. What callers hold is a multiset of references beside the state.

**Netlink attributes.** `NlAttributeBuilder.Message` is a message under construction; its ghost field
lists the containers still open. `NlAttributeTrees` proves that walking the bytes recovers the tree,
`NlAttributePrograms` that a program of put, nest, end and cancel leaves the tree it stands for,
`NlAttributeCuts` says what an over-long attribute's header becomes, `NlAttributeExamples` has attributes byte
by byte, and `NlAttributeParsing` covers `nla_parse` with policies and `nla_find`.

**Local ports.** `NlPorts` is the search through the map of 1024 slots, `NlSockets` the operations on
sockets including the retries of `nl_connect`, `NlPortOwnership` the ownership invariant over every run.
`NlConnecting` says when `nl_connect` succeeds, from the answers of the system alone, `NlPortCalls` what the
single calls do and which ports come first, and `NlSocketLibrary.Library` performs all of it in place.

**Transforms.** `NlHash` and `NlHashMacros` (Jenkins hash, three ways to read the key, and its macros line by
line), `Checksums` and `ForgedPackets` (RFC 1071 sums and headers of forged packets), `Desync` (which packets a
desync attack sends and what the server reassembles), `TlsSni` and `TlsSniReads` (the ClientHello walker),
`Base64Url` and `Base64UrlGroups`, and from httplib `HttpChunked`, `HttpBodies` and `HttpSizes` (section 4.1 of RFC
7230: the loops, which octets pass for a body, and what a size line says) and `WorkerPool` and `WorkerRuns` (all
interleavings of enqueue, workers and shutdown).

## Where the code does not do what one would expect

The models follow the code; these are the places where a natural promise fails, each with the exact
condition and an input or a run that shows it.

- `putDnsDomainName` lays a name out in an array of 256 octets, and a name of 255 octets without final
  dot needs 257: the root octet is written behind the array (`DnsLimits.LayoutSize`, for four labels of 63
  octets `DnsLimits.FullNameOverruns`). In the model this is the error LayoutOverrun, which stands for
  whatever happens then.
- `setPos` refuses the position at the end of the buffer. So a name whose pointer is the last thing in
  the buffer is not read back (`DnsExamples.PointerLastRefused`), a message that ends in compressed RDATA
  is rejected by the decoder (`DnsReadsBack.MessageReadsBack`, `DnsMessageExamples.MessageEndsInPointer`),
  and RDATA that exactly fills the buffer cannot be encoded (`DnsCodec.EmitAllExact`,
  `DnsMessageExamples.RDataFillsBuffer`).
- A pointer found in RDATA may lead to octets that the length filled in afterwards changes. The name is
  spoiled exactly when the copy overlaps an octet of the length field that does not stay zero
  (`DnsOverlaps.HarmlessExactly`, `DnsMessageExamples.LengthChangesName`).
- A name with a final dot is searched for without its root octet (`DnsExamples.FinalDotBreaks`); it reads
  back exactly when the copy found happens to be a whole name, or, uncompressed, when a zero happens to
  follow (`DnsLimits.FinalDotUncompressed`).
- A pointer offset of 14 bits is not enforced: above 0x3FFF the name does not read back
  (`DnsCompression.NameRoundTrip`, `DnsLimits.OffsetTooLarge`).
- A pointer straight to a root octet leaves a final dot in the text (`DnsNames.TextOfChain`,
  `DnsLimits.RootPointerDot`).
- A name with an empty label, such as "a..b", is taken and written with a root octet in the middle. It
  never reads back, whatever was written before it (`DnsEmptyLabels.NameReadsBack`,
  `DnsEmptyLabels.EmptyLabelUncompressed`, `DnsEmptyLabels.TwoDots`).
- RDATA without octets, such as that of a TXT record to which no text was added, is written with RDLENGTH 0
  and read as no RDATA (`DnsReadsBack.EmptyRDataLost`, `DnsLost.NoTextsLost`).
- A character string of 256 octets or more is taken, its length is cut to eight bits, and no record with
  such a string is ever read (`DnsReadsBack.LongTextLost`, `DnsLost.LongTextCut`). Numbers are cut to the
  width of their fields in the same way (`DnsLost.WideIdCut`).
- A WKS record is decoded as an address: it is read if and only if its RDATA has four octets, and the
  encoder of WKS writes at least five (`DnsUndecoded.WksExactly`, `DnsUndecoded.WksNeverRead`,
  `DnsMessageExamples.WksRefused`).
- RCODE is never decoded: a message that reads back otherwise decodes to itself if and only if its RCODE
  was there before (`DnsReadsBack.RCodeExactly`, `DnsMessageExamples.RCodeLost`).
- A `nl_cache_move` into a hash table that has another object of the same identity is refused and leaves
  a reference taken (`NlCacheRuns.MoveKeeps`, `NlCacheReached.MoveLeaks`).
- `nl_list_del` leaves the list head as it was, so that `nl_cache_add` adds a clone if and only if the
  object was ever listed (`NlCacheReached.AddTakes`, `NlCacheReached.ClonedInRun`).
- `nl_cache_find`'s shortcut through the hash table disagrees with the filter when the first item that
  matches has further identifying attributes (`NlCacheFinding.ShortcutExact`,
  `NlCacheReached.ShortcutMissesInRun`).
- A resynchronization of a cache without hash table that holds an identity twice reports a wrong log
  (`NlCacheDuplicates.DuplicatesLoseTrack`, `NlCacheReached.DuplicatesReached`).
- `nla_put` cuts the length of a payload of more than 65531 bytes to 16 bits
  (`NlAttributeTrees.LongLeafLost`, `NlAttributeCuts.CutHeader`); inside a container the roll-back at 65535
  bytes makes up for it.
- `form_packet` cuts the headers to 40 octets and keeps ihl: made from a packet with IP options, a packet
  delivers its data less the first 4 * (ihl - 5) octets, and with fewer data than that its TCP header is
  written behind its end (`ForgedPackets.FormPacket`, `ForgedPackets.PayloadWhole`,
  `ForgedPackets.OptionsCutPayload`).
- A fake that reaches into the data with other octets spoils the stream if it comes last
  (`Desync.StreamExactly`, `Desync.FakeSpoilsStream`).
- `min_ttl` is described as the least distance for which fakes are sent. Without auto_ttl it is the other way
  round: from that distance on, no fakes are sent, the data goes out in one piece, and failure is reported
  (`Desync.LeftOutExactly`, `Desync.MinTtlReversed`, `Desync.Attack`).
- A chunk that is followed by another line than the empty one ends `read_content_chunked` with success
  (`HttpBodies.SuccessExactly`, `HttpBodies.LoneLineFeed`).
- `write_content_chunked` reports success without having written the end marker if and only if it gets to
  a call of the provider before which the server is shutting down, or to one that ends with a write of no
  octets and gives no other reason to stop (`HttpChunked.CutShortExactly`, `HttpChunked.WholeExactly`,
  `HttpChunked.ShutDownAtOnce`, `HttpChunked.EmptiedAtOnce`).

## Model

| member | source | states |
|---|---|---|
| DnsBuffer.Buffer.SetPos | dnslib/buffer.cpp:207-213 | moves the cursor strictly inside the buffer, and refuses every position from its end on, leaving the cursor alone |
| DnsBuffer.Buffer.PutBytes | dnslib/buffer.cpp:224-233 | appends exactly the octets when there is room for all of them, and nothing otherwise |
| DnsBuffer.Buffer.GetDnsCharacterString | dnslib/buffer.cpp:235-245 | the octets behind a length octet, or the exception when they are not all there |
| DnsBuffer.Buffer.PutDnsCharacterString | dnslib/buffer.cpp:247-251 | appends the length octet and the octets, all of it or nothing |
| DnsBuffer.Buffer.GetDnsDomainName | dnslib/buffer.cpp:253-330 | terminates on every buffer, cursor and stack of visited positions, with the result, cursor and stack of the denotation ReadName |
| DnsBuffer.Buffer.GetLinkedName | dnslib/buffer.cpp:284-295 | follows a pointer and comes back behind it; fails for a target, or a place to come back to, at or behind the end of the buffer |
| DnsBuffer.Buffer.GetLabels | dnslib/buffer.cpp:266-308 | collects the labels up to the root octet or a pointer, or stops at the first octet that is neither |
| DnsBuffer.Buffer.PutDnsDomainName | dnslib/buffer.cpp:332-451 | appends the (compressed) octets of the name if there is room; throws before writing for names or labels that are too long, and flags the name that overruns the local array |
| DnsBuffer.Buffer.LayOut | dnslib/buffer.cpp:334-389 | the local array of 256 octets holds the wire form of the labels, with the offset of each; a label of more than 63 octets is refused, and the one octet too many of a 255-octet name is caught |
| DnsLimits.LayoutSize | dnslib/buffer.cpp:334-389 | a text that passes the length check needs more than the 256 octets of the array exactly when it has 255 octets and no final dot; its labels always fit the array of offsets |
| DnsLimits.FullNameOverruns | dnslib/buffer.cpp:334-389 | four labels of 63 octets pass every check and overrun the array |
| DnsBuffer.Buffer.FindTip | dnslib/buffer.cpp:406-424 | the search finds the first earlier occurrence of the needle, and none only if there is none |
| DnsBuffer.Buffer.PutLabels | dnslib/buffer.cpp:391-445 | writes label after label until a suffix is found that already occurs, and a pointer to it; appends all of it or fails for lack of room |
| DnsNames.NameDecodingIsExact | dnslib/buffer.cpp:253-330 | decoding succeeds exactly when the pointer chain leads to the root without trouble, and gives the labels along the chain; "endless loop" is thrown exactly when the chain comes back to a position; the stack is restored on success |
| DnsNames.TextOfChain | dnslib/buffer.cpp:284-308 | the text is the dot-separated labels of the chain, with a dot at the end exactly when a pointer leads straight to a root octet |
| DnsCompression.CompressedShape | dnslib/buffer.cpp:391-445 | a written name is some whole labels and an ending; its pointer leads to a complete copy of the labels left out that lies strictly inside what was written before |
| DnsCompression.NameRoundTrip | dnslib/buffer.cpp:253-451 | whatever was written before, a proper name reads back as itself, the reader stopping where the writer stopped, if and only if no pointer was written, or its offset fits 14 bits, it is not last in the buffer and (for a name with a final dot) the copy happens to be a whole name |
| DnsCompression.PointerAtEndRefused | dnslib/buffer.cpp:207-213 | a name whose pointer is the last thing in the buffer is refused |
| DnsCompression.UncompressedRoundTrip | dnslib/buffer.cpp:332-451 | without compression every proper name without a final dot reads back |
| DnsLimits.FinalDotUncompressed | dnslib/buffer.cpp:363-368 | one with a final dot reads back (without the dot) if and only if a zero octet happens to follow, and then the reader stops one octet further |
| DnsExamples.FinalDotBreaks | dnslib/buffer.cpp:363-368 | concrete octets: "a." written behind the name a.b becomes a pointer to it and reads back as "a.b" |
| DnsExamples.PointerLastRefused | dnslib/buffer.cpp:207-213 | concrete octets: a compressed "a" that ends the buffer is not read back |
| DnsLimits.OffsetTooLarge | dnslib/buffer.cpp:426-433 | concrete octets: behind 16384 octets a pointer is written as 0, 0 and reads back as the root |
| DnsLimits.RootPointerDot | dnslib/buffer.cpp:284-295 | concrete octets: a pointer to a root octet leaves "a." |
| DnsEmptyLabels.NameReadsBack | dnslib/buffer.cpp:253-451 | whatever was written before and follows, a name without final dot that the writer takes reads back as itself if and only if none of its labels is empty and its pointer, if there is one, is readable |
| DnsEmptyLabels.EmptyLabelLost | dnslib/buffer.cpp:253-451 | for every other name that the writer takes, with a final dot or not: if the reader stops where the writer stopped, the text is shorter than the name |
| DnsEmptyLabels.EmptyLabelUncompressed | dnslib/buffer.cpp:332-390 | written without a pointer, such a name reads as the labels before the empty one, and the reader stops behind the root octet in the middle |
| DnsEmptyLabels.TwoDots | dnslib/buffer.cpp:332-390 | concrete octets: "a..b" is written, and "a" is read |
| DnsFields.FieldsRoundTrip | dnslib/rr.cpp:234-254 | members written one after another read back in order by their kinds, unless the last is a name stuck at its pointer at the end of the buffer |
| DnsMessage.QuestionsRoundTrip | dnslib/qs.cpp:56-61 | questions, each name, type and class, read back in order, however their names were compressed |
| DnsCopies.CopyNeeded | dnslib/buffer.cpp:284-295 | when zeros of the copy that a pointer leads to were overwritten, the name no longer reads back |
| DnsCopies.FieldsNeedCopies | dnslib/rr.cpp:234-254 | members read back as they were written only if every copy their names point to is still there |
| DnsReadsBack.RDataDecoded | dnslib/rr.cpp:443-512 | whatever the buffer holds, RDATA that was read has some octets, members that fit its type, numbers within their width and no character string of 256 octets or more |
| DnsDecoded.RecordDecoded | dnslib/rr.cpp:443-512 | whatever the buffer holds, a record that was read fits the wire format as soon as its names do |
| DnsDecoded.MessageDecoded | dnslib/message.cpp:82-126 | the same of a message that was read: its header, its questions and its records |
| DnsReadsBack.RecordReadsBack | dnslib/rr.cpp:443-533 | a record that can be encoded reads back with its RDLENGTH filled in if and only if it fits the wire format, filling the length in disturbs no copy a name in its RDATA points to, and it is not stuck at a pointer at the end of the buffer |
| DnsReadsBack.EmptyRDataLost | dnslib/rr.cpp:443-533 | a record whose RDATA has no octets reads back without RDATA |
| DnsReadsBack.LongTextLost | dnslib/rr.cpp:268-280 | no record that was read has a character string of 256 octets or more |
| DnsLost.NoTextsLost | dnslib/rr.cpp:268-280 | concrete octets: a TXT record without texts reads back without RDATA |
| DnsLost.LongTextCut | dnslib/buffer.cpp:247-251 | concrete octets: a text of 256 octets is written behind a length octet of 0, and its record is never what is read |
| DnsLost.WideIdCut | dnslib/message.cpp:138-144 | concrete octets: an identifier of 65536 reads back as 0 |
| DnsTypes.AddressExactly | dnslib/rr.cpp:293-299 | an A record is read if and only if its RDATA has four octets, and they are the address; more are refused for their size |
| DnsTypes.LongAddressExactly | dnslib/rr.cpp:376-382 | the same of AAAA and sixteen octets |
| DnsTypes.NameTypesExactly | dnslib/rr.cpp:52-55 | what a record of type 2, 3, 4, 5, 7, 8, 9 or 12 is read as: one name, pointers followed, that ends where RDLENGTH says |
| DnsTypes.HostExactly | dnslib/rr.cpp:73-77 | type 13: two character strings |
| DnsTypes.MailboxesExactly | dnslib/rr.cpp:130-134 | type 14: two names |
| DnsTypes.ExchangeExactly | dnslib/rr.cpp:160-164 | type 15: a number of sixteen bits and a name |
| DnsTypes.AuthorityExactly | dnslib/rr.cpp:234-243 | type 6: two names and five numbers of 32 bits, in this order |
| DnsTypes.AuthorityPointerExactly | dnslib/rr.cpp:408-416 | type 35: two numbers of sixteen bits, three character strings and a name without pointers |
| DnsTypes.TextTypeExactly | dnslib/rr.cpp:268-274 | type 16: character strings as long as RDLENGTH is not reached |
| DnsTypes.OtherTypesExactly | dnslib/rr.cpp:187-200 | records of every type that is not listed are always read, as all their octets |
| DnsTypes.SizedExactly | dnslib/rr.cpp:506-511 | in all of these a record is read if and only if its members are, and end where RDLENGTH says |
| DnsHeader.HeaderWritten | dnslib/message.cpp:138-157 | the first twelve octets written: identifier, flags bit by bit, and the four counts in their order |
| DnsHeader.HeaderRead | dnslib/message.cpp:90-104 | what is taken from the first twelve octets: identifier, flags bit by bit, and how many questions and records of each section there are |
| DnsOverlaps.HarmlessExactly | dnslib/rr.cpp:514-533 | filling in the length disturbs no such copy if and only if none overlaps an octet of the length field that becomes non-zero |
| DnsMessageExamples.LengthChangesName | dnslib/rr.cpp:514-533 | concrete octets: an MX record whose exchange is one zero octet points into its own length field; its name is cut off or reads as another one, and the record does not read back |
| DnsRecords.TextsRoundTrip | dnslib/rr.cpp:268-280 | the loop over character strings stops exactly behind the last one written |
| DnsMessage.RecordsConcat | dnslib/message.cpp:163-173 | writing three sections one after the other is writing one list of records |
| DnsMessage.FlagsAssemble | dnslib/message.cpp:93-99 | the flag bits taken apart are the ones put together |
| DnsReadsBack.MessageReadsBack | dnslib/message.cpp:82-176 | every message that can be encoded into 512 octets decodes to itself, RCODE apart, if and only if its numbers, character strings and RDATA fit the wire format, no copy that a name in some RDATA points to overlaps a length octet that becomes non-zero, and the message does not end in a compressed name's pointer |
| DnsMessageExamples.MessageEndsInPointer | dnslib/message.cpp:82-176 | concrete octets: a message that ends in a pointer is encoded, and then refused |
| DnsUndecoded.WksExactly | dnslib/rr.cpp:495-511 | a WKS record is read, as an address, if and only if its RDATA has four octets; more are refused for their size |
| DnsUndecoded.WksNeverRead | dnslib/rr.cpp:344-356 | no record whose RDATA the encoder of WKS wrote is read |
| DnsMessageExamples.WksRefused | dnslib/rr.cpp:495-511 | concrete octets: five octets of WKS data are written and refused |
| DnsReadsBack.RCodeExactly | dnslib/message.cpp:82-99 | a message decodes to itself, RCODE included, if and only if it reads back and its RCODE was there before |
| DnsMessageExamples.RCodeLost | dnslib/message.cpp:82-99 | concrete octets: an answer with RCODE 3 is read as one without error |
| DnsReadsBack.PlainMessageReadsBack | dnslib/message.cpp:82-176 | messages with A, AAAA, TXT, HINFO, plain or no RDATA decode to themselves if and only if their numbers, character strings and RDATA fit the wire format |
| DnsMessage.PlainRecordHarmless | dnslib/rr.cpp:514-533 | filling in the length of such a record disturbs no copy a name points to |
| DnsCodec.PutFields | dnslib/rr.cpp:245-254 | members appended in order, all of them or a failure that leaves everything before untouched |
| DnsCodec.GetFields | dnslib/rr.cpp:234-243 | members read in order, with the first exception |
| DnsCodec.PatchLength | dnslib/rr.cpp:524-531 | the placeholder, and nothing else, is overwritten with the length; coming back fails exactly at the end of the buffer |
| DnsCodec.EncodeRecord | dnslib/rr.cpp:514-533 | appends the record with its true RDLENGTH, or fails; RDATA may not end exactly at the end of the buffer |
| DnsCodec.EmitAllExact | dnslib/rr.cpp:514-533 | a list of records can be encoded exactly when it ends inside the buffer, or fills it without RDATA at its end |
| DnsMessageExamples.RDataFillsBuffer | dnslib/rr.cpp:524-531 | concrete octets: a message of 27 octets cannot be encoded into 27, but into 28 |
| DnsCodec.EncodeRecords | dnslib/message.cpp:163-173 | a section is appended record by record, or encoding fails |
| DnsCodec.EncodeQuestions | dnslib/message.cpp:159-161 | the questions are appended in order, all of them or a failure |
| DnsCodec.DecodeRecord | dnslib/rr.cpp:443-512 | the record at the cursor, with an exception when its RDATA has another size than RDLENGTH |
| DnsCodec.GetTexts | dnslib/rr.cpp:268-274 | character strings until the RDATA is used up |
| DnsCodec.DecodeRecords | dnslib/message.cpp:128-136 | as many records as the count says, in order |
| DnsCodec.DecodeQuestions | dnslib/message.cpp:105-116 | as many questions as the count says, in order |
| DnsCodec.Message.Encode | dnslib/message.cpp:138-176 | writes exactly the message's octets at the start of the buffer and reports their number, or fails with 0; the rest of the buffer stays as it was |
| DnsCodec.Message.Decode | dnslib/message.cpp:82-126 | accepts exactly the buffers of at most 512 octets that are one whole message, and takes over their contents; RCODE stays as it was |
| NlObjects.IdenticalIsSameIdentity | libnl/lib/object.c:309-347 | objects of one comparable type are identical exactly when their identifying attributes have the same values: an equivalence a hash key can be computed from |
| NlObjects.IdenticalOtherwise | libnl/lib/object.c:309-347 | an object is identical to itself whatever its type, and otherwise objects of different types, or of one that cannot be compared, never are |
| NlObjects.DiffersExactly | libnl/lib/object.c:361-369 | no difference is reported exactly when all attributes agree |
| NlObjects.IdentifyingFilter | libnl/lib/object.c:405-414 | a filter of just the identifying attributes matches exactly the identical objects |
| NlCacheSafety.PutKeeps | libnl/lib/object.c:211-225 | giving back a held reference keeps the invariant, never runs into BUG(), and frees the object exactly when it was the last reference |
| NlCacheSafety.FastLookupAgrees | libnl/lib/cache.c:1081-1126 | looking up in the hash table finds exactly the object a linear scan finds |
| NlCacheFinding.ShortcutExact | libnl/lib/cache.c:1145-1165 | nl_cache_find finds what trying the filter on every item finds if and only if it does not take its shortcut, or the first item that the filter matches is identified by just the filter's attributes, or none matches and the filter is not an item itself |
| NlCacheFinding.ShortcutWithoutIds | libnl/lib/cache.c:1145-1165 | for a hashed cache of a type without identifying attributes: if and only if the filter is not empty, or there is no item, or the first item is empty too |
| NlCacheReached.ShortcutMissesInRun | libnl/lib/cache.c:1145-1165 | a run from empty memory after which the shortcut finds nothing where the filter matches the only item |
| NlCacheSafety.InsertOutcome | libnl/lib/cache.c:431-452 | an insertion is refused exactly when the hashed cache has an identical object |
| NlCacheSafety.InsertRefused | libnl/lib/hashtable.c:114-128 | a refused insertion changes nothing |
| NlCacheSafety.InsertKeeps | libnl/lib/cache.c:431-452 | an insertion takes over one reference, takes one for the hash table, appends to the list and touches no other cache |
| NlCacheSafety.OwnNode | libnl/lib/hashtable.c:158-187 | the node that deletion unlinks is the object's own, although it looks for any identical one |
| NlCacheSafety.RemoveResult | libnl/lib/cache.c:548-570 | removal in small steps amounts to taking the object out of list and chain and giving up exactly the cache's references |
| NlCacheSafety.RemoveKeeps | libnl/lib/cache.c:548-570 | removal keeps the invariant and frees the object exactly when no caller holds it |
| NlCacheRuns.AddKeeps | libnl/lib/cache.c:476-500 | adding an object, or a clone of one that was ever listed, keeps the invariant and every caller's references |
| NlCacheCodes.AddCode | libnl/lib/cache.c:476-500 | adding is refused for another type, and where an object in the hash table has the same identity, and accepted otherwise |
| NlCacheReached.AddTakes | libnl/lib/cache.c:476-500 | what is appended is the object itself, or a clone if and only if the object was ever in a list |
| NlCacheReached.ClonedInRun | libnl/lib/cache.c:476-500 | a run from empty memory: moved in, removed and added again, the object is not in the cache, but a clone is |
| NlCacheRuns.MoveKeeps | libnl/lib/cache.c:520-536 | a move is refused if and only if the cache has a hash table and in it another object of the same identity; then one reference is left that nobody gives back, and otherwise callers hold what they held |
| NlCacheCodes.MoveCode | libnl/lib/cache.c:520-536 | moving is refused for another type, which changes nothing, and in the case above; otherwise the object ends the list of this cache |
| NlCacheReached.MoveLeaks | libnl/lib/cache.c:520-536 | a run from empty memory: the creator of a refused object gives back its only reference, and the object stays, in no cache, with a count of one |
| NlCacheRuns.SearchKeeps | libnl/lib/cache.c:1110-1126 | the caller gets one reference to the first identical object |
| NlCacheRuns.MoveAfterRemove | libnl/lib/cache.c:817-829 | once the predecessor is out, the move of the new object cannot be refused |
| NlCacheRuns.IncludeKeeps | libnl/lib/cache.c:783-896 | including keeps the invariant and never looks at a freed object, in a change callback either |
| NlCacheCodes.IncludeCode | libnl/lib/cache.c:858-896 | including is refused for another type and for a message type the cache does not know, which changes nothing, and accepted otherwise |
| NlCacheCodes.PickupCode | libnl/lib/cache.c:662-708 | so is every object of a dump |
| NlCacheCodes.DumpStops | libnl/lib/cache.c:662-708 | a dump stops at an object that is refused, with what that one answers |
| NlCacheCodes.SearchCode | libnl/lib/cache.c:1110-1126 | what is found is identical, and exactly its count goes up by one |
| NlCacheSteps.FreeCacheKeeps | libnl/lib/cache.c:363-382 | freeing a cache gives up exactly its own references |
| NlCacheSteps.PickupCheckDupKeeps | libnl/lib/cache.c:710-727 | replacing a duplicate while picking up keeps the invariant and every caller's references |
| NlCacheSteps.EveryRunConserves | libnl/lib/object.c:166-225 | over every run of allocation, get, put, mark, add, move, remove, clear, search, include, pickup, resync and free: no use after free, no BUG(), and each live object's count is what callers hold plus one for the list and one for the hash table |
| NlCacheSteps.EveryRunIndexed | libnl/lib/hashtable.c:83-187 | over every run: the chains hold exactly the listed objects, each once and in the chain of its key, no two identical, c_nitems counts them, and fast lookup is linear scan |
| NlContents.IncludeReplays | libnl/lib/cache.c:783-856 | replaying the NEW, CHANGE and DEL events of an inclusion on the former contents gives the new contents |
| NlContents.IncludeContents | libnl/lib/cache.c:783-856 | an inclusion sets or removes exactly the reported identity |
| NlCacheResync.ReplaceEffect | libnl/lib/cache.c:817-847 | the predecessor leaves, the new object is appended, and CHANGE is reported exactly when they differ |
| NlCacheResync.PickupAllEffect | libnl/lib/cache.c:662-708 | a dump leaves unmarked exactly what it reported last, per identity |
| NlCacheResync.SweepEffect | libnl/lib/cache.c:956-964 | sweeping leaves the unmarked objects and reports every other one as deleted |
| NlCacheResync.ResyncFaithful | libnl/lib/cache.c:910-971 | after a dump that is not interrupted the cache holds per identity exactly what was dumped last, no other cache changes, and the event log turns the former contents into the new ones |
| NlCacheResync.HashedReady | libnl/lib/hashtable.c:114-144 | caches with a hash table always meet the condition for that |
| NlCacheDuplicates.DuplicatesLoseTrack | libnl/lib/cache.c:910-971 | a cache with two objects of one identity, possible without a hash table, has a dump after which the log is wrong: so the condition is exact |
| NlCacheReached.DuplicatesReached | libnl/lib/cache.c:520-536 | a run from empty memory to such a cache, and the dump |
| NlCacheLibrary.Library.HashLookup | libnl/lib/hashtable.c:83-99 | walking the chain finds the first identical node |
| NlCacheLibrary.Library.HashTableDel | libnl/lib/hashtable.c:158-187 | unlinks the node found and puts the object that was passed |
| NlCacheLibrary.Library.HashTableAdd | libnl/lib/hashtable.c:114-144 | a new node with its own reference goes to the front of the chain, or the duplicate is reported and nothing changes |
| NlCacheLibrary.Library.CacheInsert | libnl/lib/cache.c:431-452 | the memory afterwards is that of the specification, success or not |
| NlCacheLibrary.Library.CacheRemove | libnl/lib/cache.c:548-570 | the same for removal, in every valid memory |
| NlCacheLibrary.Library.CacheAdd | libnl/lib/cache.c:476-500 | the same for adding, a clone where the object was ever listed |
| NlCacheLibrary.Library.CacheMove | libnl/lib/cache.c:520-536 | the same for a move |
| NlCacheLibrary.Library.CacheClear | libnl/lib/cache.c:363-371 | the loop over the list empties the cache |
| NlCacheLibrary.Library.CacheSearch | libnl/lib/cache.c:1081-1126 | finds the first identical object in list order, whichever way it looks |
| NlCacheLibrary.Library.CacheInclude | libnl/lib/cache.c:783-896 | the memory, return code and events of the specification |
| NlCacheLibrary.Library.PickupDump | libnl/lib/cache.c:662-708 | the dump is included object by object, up to its end or the first that is refused, with all events in order |
| NlCacheLibrary.Library.SweepItems | libnl/lib/cache.c:956-964 | the loop visits every item the list had, although items are freed on the way |
| NlCacheLibrary.Library.CacheResync | libnl/lib/cache.c:910-971 | marking, picking up and sweeping in loops does what the specification says |
| NlAttributeCuts.CutHeader | libnl/lib/attr.c:451-479 | the length stored is the true length modulo 65536, and where that leaves 1, 2 or 3, clearing the padding wipes out the type or its upper octet |
| NlAttributeTrees.AttributeAt | libnl/lib/attr.c:105-173 | an aligned attribute reads back its length, type and payload, and the next one is found behind its padding |
| NlAttributeTrees.TreeRoundTrip | libnl/lib/attr.c:144-173 | the recursive walk of a tree's bytes gives the tree, followed by whatever comes behind |
| NlAttributeTrees.LongLeafLost | libnl/lib/attr.c:451-479 | a payload of more than 65531 bytes is never read back |
| NlAttributeTrees.StreamRoundTrip | libnl/lib/attr.c:144-173 | a stream walks back to its trees if and only if every top-level payload fits the length field |
| NlAttributeBuilder.Message.constructor | libnl/lib/msg.c:258-285 | a new message holds nothing but zeros behind its header |
| NlAttributeBuilder.Message.Reserve | libnl/lib/attr.c:451-479 | reserves header, payload and padding at the tail if there is room, all of it zero but the header |
| NlAttributeBuilder.Message.Put | libnl/lib/attr.c:495-515 | appends the attribute to the innermost open container, or changes nothing for lack of room |
| NlAttributeBuilder.Message.NestStart | libnl/lib/attr.c:897-908 | opens a container at the tail and returns where |
| NlAttributeBuilder.Message.NestEnd | libnl/lib/attr.c:910-978 | closes the innermost container with its true length; drops it if empty and not to be kept, rolls it back with an error if longer than 65535 |
| NlAttributeBuilder.Message.NestCancel | libnl/lib/attr.c:989-1000 | for any open container: restores the length at which it was opened, clears everything behind it, and drops it with every container opened in it |
| NlAttributeExamples.OneInContainer | libnl/lib/attr.c:895-925 | concrete bytes of an attribute in a container: lengths and types with the low byte first, padding, and the container's flag |
| NlAttributeExamples.FlaggedExactly | libnl/lib/attr.c:897-908 | the flag for containers is bit 15, and the other bits of the type stay |
| NlAttributeExamples.RoomExactly | libnl/lib/attr.c:456-487 | there is no room if and only if the message with its header of sixteen bytes and the padded attribute with its own of four are longer than the buffer |
| NlAttributeExamples.ClosingExactly | libnl/lib/attr.c:910-943 | closing a container fails if and only if it is longer than 65535 bytes; it disappears then, and when it is empty and not to be kept |
| NlAttributePrograms.RunProgram | libnl/lib/attr.c:495-1000 | a well-bracketed program that has room adds the trees it stands for to the innermost open container and changes nothing else |
| NlAttributePrograms.AnyRunRoundTrip | libnl/lib/attr.c:144-173 | after any calls with attribute types below 0x4000, refused ones included, that leave no container open, the walk gives the tree built if and only if every top-level payload fits |
| NlAttributePrograms.ProgramRoundTrip | libnl/lib/attr.c:897-1000 | a well-bracketed program leaves a stream whose walk is the tree it stands for: empty containers dropped or kept as asked, over-long and cancelled ones gone |
| NlAttributePrograms.CancelRestores | libnl/lib/attr.c:989-1000 | cancelling takes back everything since the container was opened |
| NlAttributePrograms.SameBytes | libnl/lib/attr.c:989-1000 | with the same containers and contents a message has the same length and bytes, so a cancelled nest leaves no trace |
| NlAttributePrograms.Execute | libnl/lib/attr.c:495-1000 | running a program on a message object gives the frames its denotation gives |
| NlAttributeParsing.ValidatePayload | libnl/lib/attr.c:184-217 | accepts exactly the payloads that meet the policy, tells a string without its zero from a wrong length, and never reads before an empty payload |
| NlAttributeParsing.KindExactly | libnl/lib/attr.c:175-182 | without lengths in the policy, U8, U16, U32 and U64 need at least 1, 2, 4 and 8 bytes, a string is not empty and ends in zero, and every other kind takes everything |
| NlAttributeParsing.PolicyExactly | libnl/lib/attr.c:184-217 | with them, the lower limit takes the place of these sizes, and the upper one holds besides |
| NlAttributeParsing.Parse | libnl/lib/attr.c:238-271 | the table gets the last attribute of each type, up to the first one its policy refuses |
| NlAttributeParsing.FindAttribute | libnl/lib/attr.c:318-328 | finds the first attribute of the type |
| NlAttributeParsing.FoundInTree | libnl/lib/attr.c:238-328 | in the stream of a tree, the attributes found are the trees, nla_find gives the first and nla_parse the last of a type |
| NlPorts.SlotRecovered | libnl/lib/socket.c:98-108 | a generated port is a 32-bit number other than 0 whose slot can be recovered |
| NlPorts.EveryBlockOnce | libnl/lib/socket.c:77-88 | the walk visits each of the 32 words in exactly one round, word 0 in the last |
| NlPorts.EveryBitOnce | libnl/lib/socket.c:93-96 | within a word each bit is visited in exactly one round |
| NlPorts.SearchComplete | libnl/lib/socket.c:60-114 | for every map and every state the search fails if and only if all 1024 slots are taken, and takes one of the first 32 only when all others are taken |
| NlPortOwnership.GenerateFresh | libnl/lib/socket.c:60-114 | 0 exactly when the map is full, otherwise exactly one clear bit is set, which the port carries |
| NlPortOwnership.FreeKeeps | libnl/lib/socket.c:237-250 | freeing a socket gives back its generated port, and BUG_ON does not fire |
| NlPortOwnership.SetKeeps | libnl/lib/socket.c:397-403 | setting a port gives back the generated one and makes the new one nobody's slot |
| NlPortOwnership.GetKeeps | libnl/lib/socket.c:358-384 | a port generated on first use is owned by this socket alone |
| NlPortOwnership.ParkKeeps | libnl/lib/socket.c:151-164 | a port in use elsewhere is parked: taken, but no socket's |
| NlPortOwnership.RetryKeeps | libnl/lib/nl.c:127-164 | through up to six tries every port found in use stays parked and every other socket keeps its own |
| NlPortOwnership.ReleaseAllKeeps | libnl/lib/socket.c:134-149 | releasing the parked ports never trips BUG_ON and takes nothing from a socket |
| NlPortOwnership.ConnectKeeps | libnl/lib/nl.c:99-213 | nl_connect keeps ownership whatever the system answers |
| NlPortOwnership.EveryRunOwns | libnl/lib/socket.c:116-167 | over every run of create, get, set, connect, close and free: BUG_ON never fires, a slot is taken exactly when one live socket without NL_OWN_PORT has it, and no two share one |
| NlConnecting.ConnectExactly | libnl/lib/nl.c:99-213 | nl_connect succeeds if and only if the socket was not connected, the system was ready, a bind went well and getsockname did; then the socket has the port getsockname gave; otherwise it is not newly connected, and no other socket changes |
| NlConnecting.RetryOutcome | libnl/lib/nl.c:127-164 | of six ports, or of as many as are left, the first not found in use decides: bound it is done, refused it fails; if all are in use the last bind decides |
| NlConnecting.FirstPortBound | libnl/lib/nl.c:127-213 | a new socket on a map that is not full is connected when the first bind goes well |
| NlPortCalls.NewSocketConnects | libnl/lib/socket.c:188-206 | so is one that was just allocated |
| NlPortCalls.PortGiven | libnl/lib/socket.c:358-384 | a port that is set stays; otherwise one is generated and owned, or the port is 0xFFFFFFFF when the map is full |
| NlPortCalls.PortSet | libnl/lib/socket.c:397-403 | the port is the one given, not owned, and exactly the slot of a generated one is cleared |
| NlPortCalls.FreedGone | libnl/lib/socket.c:237-250 | the socket is gone, exactly the slot of its generated port is cleared, and the others stay |
| NlPortCalls.ReleaseExactly | libnl/lib/socket.c:116-131 | BUG_ON fires exactly for port 0 and for a port whose slot is not taken |
| NlPortCalls.ReleaseAllExactly | libnl/lib/socket.c:134-149 | releasing parked ports trips BUG_ON exactly when one of them was not taken, and clears exactly these |
| NlPortCalls.FirstTwoPorts | libnl/lib/socket.c:60-114 | concrete ports: the two first slots of the walk from a given state, and the state after it |
| NlPortCalls.PortNumber | libnl/lib/socket.c:98-108 | slot and process number make the port, and 1024 stands for zero |
| NlSocketLibrary.Library.WordFull | libnl/lib/socket.c:90-91 | a word is full exactly when all its bits are set |
| NlSocketLibrary.Library.ClearBit | libnl/lib/socket.c:93-98 | the inner loop ends at the first clear bit, going round |
| NlSocketLibrary.Library.GenerateLocalPort | libnl/lib/socket.c:60-114 | the nested loops set the bit and return the port of the specification |
| NlSocketLibrary.Library.ReleaseLocalPort | libnl/lib/socket.c:116-131 | clears exactly the port's bit |
| NlSocketLibrary.Library.UsedPortsReleaseAll | libnl/lib/socket.c:134-149 | exactly the parked bits are cleared |
| NlSocketLibrary.Library.SocketGetLocalPort | libnl/lib/socket.c:358-384 | the port is fixed on first use and never 0 |
| NlSocketLibrary.Library.BindNewPort | libnl/lib/nl.c:127-164 | the retry loop with its local map of parked ports |
| NlSocketLibrary.Library.SocketConnect | libnl/lib/nl.c:99-213 | the whole of nl_connect on shared state, ownership kept |
| NlHash.MixBijective | libnl/lib/hash.c:102-110 | mix is a bijection on triples of 32-bit words |
| NlHash.FinalBijective | libnl/lib/hash.c:137-146 | so is final |
| NlHashMacros.XorExactly | libnl/lib/hash.c:102-110 | a bit of the exclusive or is set exactly when the two bits differ |
| NlHashMacros.RotExactly | libnl/lib/hash.c:56 | a rotation moves the upper k bits below the others |
| NlHashMacros.MixWrittenOut | libnl/lib/hash.c:102-110 | the eighteen assignments of mix in their order |
| NlHashMacros.FinalWrittenOut | libnl/lib/hash.c:137-146 | the fourteen assignments of final in their order |
| NlHashMacros.AbsorbExactly | libnl/lib/hash.c:303-337 | which byte of a block counts how much in which of the three words |
| NlHashMacros.BlocksExactly | libnl/lib/hash.c:303-340 | twelve bytes at a time are mixed in as long as more are left, and the last block is finished |
| NlHashMacros.StartExactly | libnl/lib/hash.c:181 | the state starts as 0xdeadbeef, the length and the value given |
| NlHashMacros.HashExactly | libnl/lib/hash.c:176-345 | the hash is the third word at the end, and the second value the second |
| NlHashMacros.EmptyKey | libnl/lib/hash.c:247 | an empty key is not mixed |
| NlHash.AddBytes | libnl/lib/hash.c:322-337 | falling through byte by byte adds the little-endian number |
| NlHash.AddHalves | libnl/lib/hash.c:252-297 | half-words and an odd byte add the same number |
| NlHash.AddWord | libnl/lib/hash.c:185-248 | so do words and single bytes behind them |
| NlHash.HashLittle | libnl/lib/hash.c:176-345 | for every key of every length the three ways to read it give the same hash and the same second value |
| NlHash.StatesStayApart | libnl/lib/hash.c:176-345 | for every key hashing is injective in the state it starts from |
| NlHash.ShortKeysStayApart | libnl/lib/hash.c:176-345 | different keys of one block and the same length end in different states |
| Checksums.CalSum | RawSocket/CheckSum.cpp:12-23 | the loop computes the sum of the 16-bit words, modulo 2^32 |
| Checksums.FoldExact | RawSocket/CheckSum.cpp:38-40 | one fold and one end-around carry give the ones' complement sum of every 32-bit sum |
| Checksums.ChecksumCompletes | RawSocket/CheckSum.cpp:35-51 | a sum with its checksum added folds to 0xFFFF |
| Checksums.ExampleSum | RawSocket/CheckSum.cpp:12-23 | concrete octets: the example of section 3 of RFC 1071, and an odd octet |
| ForgedPackets.PseudoHeaderExactly | RawSocket/CheckSum.cpp:25-33 | zero, protocol 6, the length of the TCP header and data, and both addresses |
| ForgedPackets.NothingWraps | RawSocket/CheckSum.cpp:43-51 | the 32-bit sums never wrap for payloads up to 65495 bytes |
| ForgedPackets.FormPacket | desync.cpp:254-305 | for every ihl whose TCP header lies behind the IP header and inside the packet, and for no other, a packet is formed: both checksums hold for whoever sums it up again; every octet of both headers is what it should be, among them time to live, flags (PSH and ACK, or those given less URG), both numbers moved on, window and data offset; and the payload is the data less 4 * (ihl - 5) octets |
| ForgedPackets.PayloadWhole | desync.cpp:254-305 | the payload is the data if and only if ihl is 5 |
| ForgedPackets.OptionsCutPayload | desync.cpp:254-305 | concrete octets: with one word of options, of five octets the last is delivered |
| Desync.Attack | desync.cpp:384-584 | the packets sent are the beginning of the plan of the profile, all of it unless sending failed, each with valid checksums and with the time to live, flags, acknowledgement number and window that real segments and fakes have; with min_ttl reached, the data alone in one piece, and failure |
| Desync.PlanWrittenOut | desync.cpp:411-584 | the plan of every profile, segment by segment: which fake or reset comes first, and the order of the parts and the fakes between them |
| Desync.LeftOutExactly | desync.cpp:388-408 | the attack is left out exactly when min_ttl is set without auto_ttl and the server is at least that far away |
| Desync.MinTtlReversed | desync.cpp:388-408 | concrete distances: with 3, ten hops leave the attack out and one does not |
| Desync.SendDisorder | desync.cpp:467-515 | second part, fake, first part, fake again, as the profile asks |
| Desync.SendSplit | desync.cpp:517-565 | fake, first part, fake again, second part, as the profile asks |
| Desync.RealSegmentsTile | desync.cpp:465-584 | for every first attack and split position each position of the data is in exactly one real segment |
| Desync.FakeMisses | desync.cpp:482-493 | a fake with the wrong sequence number misses the data if and only if it has at most 10000 bytes, modulo 2^32 |
| Desync.AnyOrder | desync.cpp:465-584 | segments that agree with the data give the data in any order of arrival, duplicates included |
| Desync.RealStreamPreserved | desync.cpp:465-584 | the real segments reassemble to the original data in any order |
| Desync.StreamExactly | desync.cpp:411-584 | everything that is sent reassembles to the data in whatever order it arrives, if and only if the fakes the profile sends have the octets of the data wherever they reach into them: a fake request its own, the stand-ins zeros, both moved back by 10000 with wrong sequence numbers |
| Desync.FakeSpoilsStream | desync.cpp:411-584 | a profile, a fake and data of one octet for which it does not |
| Desync.StreamPreserved | desync.cpp:411-584 | so it does when the fakes the profile sends are empty, or have wrong sequence numbers and at most 10000 bytes |
| Desync.SplitPos | dpitunnel-cli.cpp:269-280 | the split position never lies behind the data |
| Desync.SplitPosExactly | dpitunnel-cli.cpp:269-280 | a server name inside what was received is cut in the middle; otherwise the cut is where the user says, or at the end |
| Desync.SyncSends | dpitunnel-cli.cpp:285-304 | the zero-filled sends move the kernel on by exactly the length of the data |
| Desync.SyncSendsExactly | dpitunnel-cli.cpp:285-304 | one send without an attack on the data, and one for each part otherwise |
| TlsSni.GetTlsSni | utils.cpp:107-161 | the loop over the extensions computes the walk of the specification for every buffer, and reads no byte behind position last_char |
| TlsSniReads.OnlyWhatIsThere | utils.cpp:107-161 | the result depends only on the bytes up to position last_char, so with last_char within the buffer on nothing behind its terminating zero |
| TlsSniReads.FoundInside | utils.cpp:107-161 | a name that is found begins before last_char |
| TlsSniReads.WidenedExactly | utils.cpp:115-130 | a length octet from 128 on is read as a negative char and wraps around in sixteen bits |
| TlsSni.SniExact | utils.cpp:107-161 | on every well-formed ClientHello record below 65536 octets the result is the exact offset and length of the first host name, or (0, 0) |
| TlsSni.NameThere | utils.cpp:150-158 | the octets at that place are the name |
| Base64Url.EncodedLength | include/base64.h:4-23 | ceil(8 n / 6) letters and no padding |
| Base64Url.Base64Encode | include/base64.h:4-23 | the loops with a wrapping 32-bit accumulator produce the letters of the bit string |
| Base64UrlGroups.EncodedInGroups | include/base64.h:4-23 | three octets are four letters of six bits each, highest first, and one or two octets at the end are two or three, with the alphabet written out |
| Base64UrlGroups.EncodedExamples | include/base64.h:4-23 | concrete octets: test vectors of RFC 4648, and the two letters of this alphabet |
| Base64Url.Base64Decode | include/base64.h:25-44 | the loop decodes up to the first character outside the alphabet |
| Base64Url.RoundTrip | include/base64.h:4-44 | decoding what was encoded gives back every byte string |
| HttpChunked.FromIToHex | cpp-httplib/include/cpp-httplib/httplib.h:1859-1867 | the hexadecimal digits, highest first |
| HttpChunked.SizeLine | cpp-httplib/include/cpp-httplib/httplib.h:3241-3246 | a size line converts back to the size |
| HttpSizes.HexExactly | cpp-httplib/include/cpp-httplib/httplib.h:1859-1867 | a size is written in small hexadecimal digits of that value, the first of them not zero |
| HttpSizes.NumberConverted | cpp-httplib/include/cpp-httplib/httplib.h:3241-3246 | a line of spaces, a sign or none, "0x" or not, and digits in either case converts to their positional value, whatever octet that is no digit follows; too large a value is 2^64 - 1, and a minus sign negates modulo 2^64 |
| HttpSizes.NothingConverted | cpp-httplib/include/cpp-httplib/httplib.h:3241-3246 | nothing is converted exactly when a line does not start so |
| HttpSizes.DigitsAnnounce | cpp-httplib/include/cpp-httplib/httplib.h:3241-3246 | a size line of digits in either case, with nothing or an extension behind them, announces their value |
| HttpSizes.CapitalSize | cpp-httplib/include/cpp-httplib/httplib.h:3228-3266 | concrete octets: a chunk of size "A" delivers ten octets |
| HttpSizes.LineMissing | cpp-httplib/include/cpp-httplib/httplib.h:3228-3266 | when the line behind a chunk does not come, the chunk is delivered, reading fails, and nothing is left |
| HttpChunked.WriteData | cpp-httplib/include/cpp-httplib/httplib.h:3365-3373 | everything is written once and in order, however little each call takes, or a proper beginning when a call fails |
| HttpChunked.WriteContentChunked | cpp-httplib/include/cpp-httplib/httplib.h:3449-3527 | whatever amounts the connection takes and whatever the provider writes in each call, sending ends in the first call that does not go on, with the outcome, and behind the octets, that go with what ended it: all of the body, shutting down, a last write of no octets, a provider that gives up before or after writing, or a failing write |
| HttpChunked.SentWhole | cpp-httplib/include/cpp-httplib/httplib.h:3449-3527 | a body reported as sent is written whole, every non-empty piece as a chunk, and then nothing was shutting down or giving up in any call |
| HttpChunked.SentRead | cpp-httplib/include/cpp-httplib/httplib.h:3228-3527 | what is read from it is everything the provider wrote, in order, and nothing behind it is consumed |
| HttpChunked.CutShortExactly | cpp-httplib/include/cpp-httplib/httplib.h:3457-3527 | sending ends with success and no end marker if and only if the call it ends in finds the server shutting down, or is one before the last whose pieces were all written, the last of them without octets; what is written are the chunks up to there |
| HttpChunked.WholeExactly | cpp-httplib/include/cpp-httplib/httplib.h:3457-3527 | unless the provider gives up or a write fails, the body is sent whole if and only if no call finds the server shutting down and none before the last ends with a write of no octets |
| HttpChunked.ShutDownFirst | cpp-httplib/include/cpp-httplib/httplib.h:3514-3527 | with a shutdown before some call no body is sent, the loop ends in the first such call at the latest, and when that is why, exactly the chunks before it are written |
| HttpChunked.CutShortRead | cpp-httplib/include/cpp-httplib/httplib.h:3228-3266 | the reader of a body cut short in either way is delivered the pieces up to there and then fails |
| HttpChunked.CutShortRefused | cpp-httplib/include/cpp-httplib/httplib.h:3228-3266 | chunks without an end marker are delivered, and then reading fails |
| HttpChunked.ShutDownAtOnce | cpp-httplib/include/cpp-httplib/httplib.h:3514-3527 | a server shutting down from the start writes nothing and reports success |
| HttpChunked.EmptiedAtOnce | cpp-httplib/include/cpp-httplib/httplib.h:3457-3527 | a provider whose first write has no octets, and that would have gone on, has nothing written, and success is reported |
| HttpChunked.LineReader.GetLine | cpp-httplib/include/cpp-httplib/httplib.h:2148-2185 | reads exactly up to the first LF, across the fixed and the growing buffer; a line without LF counts if the connection is closed, and not if it fails |
| HttpChunked.ReadContentWithLength | cpp-httplib/include/cpp-httplib/httplib.h:3176-3196 | delivers exactly the length asked for, in whatever pieces it comes, or fails with what there is; a receiver that refuses has got a beginning |
| HttpChunked.ReadContentChunked | cpp-httplib/include/cpp-httplib/httplib.h:3228-3266 | the reading loop agrees with its specification on every stream that closes or fails; a receiver that refuses has got a beginning of the body, and reading fails |
| HttpChunked.RoundTrip | cpp-httplib/include/cpp-httplib/httplib.h:3228-3527 | reading what was written delivers exactly the pieces and consumes exactly what was written |
| HttpBodies.SuccessExactly | cpp-httplib/include/cpp-httplib/httplib.h:3228-3266 | reading succeeds if and only if the stream begins with a whole coded body, or with chunks of which the last is followed by a line other than the empty one |
| HttpBodies.BodyDelivered | cpp-httplib/include/cpp-httplib/httplib.h:3228-3266 | in both cases the payloads are delivered; the line found in place of the empty one is lost, and what is behind stays unread |
| HttpBodies.NeverBoth | cpp-httplib/include/cpp-httplib/httplib.h:3228-3266 | no stream is both |
| HttpBodies.LoneLineFeed | cpp-httplib/include/cpp-httplib/httplib.h:3252-3256 | concrete octets: a chunk of one octet and a lone LF count as a body |
| WorkerPool.EveryRunFifo | cpp-httplib/include/cpp-httplib/httplib.h:511-579 | in every interleaving each job is exactly one of queued, running and finished, and jobs start in the order they came |
| WorkerRuns.EveryRunNoted | cpp-httplib/include/cpp-httplib/httplib.h:511-579 | over every run the pool is shut down exactly when that was called, all were notified exactly when that was done, and a worker is gone only after a shutdown |
| WorkerRuns.CheckExactly | cpp-httplib/include/cpp-httplib/httplib.h:551-561 | a worker waits without job and shutdown, leaves without job after a shutdown, and otherwise takes the front job |
| WorkerPool.AllDone | cpp-httplib/include/cpp-httplib/httplib.h:548-566 | once all workers are gone, with no enqueue after shutdown, every job has run exactly once |
| WorkerPool.Progress | cpp-httplib/include/cpp-httplib/httplib.h:523-527 | no wakeup is lost: while there is work, or the shutdown was announced, some worker can go on |
| WorkerPool.ShutdownEnds | cpp-httplib/include/cpp-httplib/httplib.h:529-542 | after the shutdown every step of a worker brings the end nearer, so joining ends |
| WorkerPool.ThreadPool.EnqueueJob | cpp-httplib/include/cpp-httplib/httplib.h:523-527 | the critical section of enqueue keeps the invariant of the run |
| WorkerPool.ThreadPool.WorkerCheck | cpp-httplib/include/cpp-httplib/httplib.h:551-561 | the critical section of a worker: wait, leave, or take the front job |
| WorkerPool.ThreadPool.WorkerFinish | cpp-httplib/include/cpp-httplib/httplib.h:563-565 | a finished job is entered once, and its worker looks for the next |
| WorkerPool.ThreadPool.NotifyEverybody | cpp-httplib/include/cpp-httplib/httplib.h:529-542 | everybody asleep is woken |

## Left out

- Sockets, poll loops, raw capture, TLS, name resolution, signals, command line and configuration: I/O. The answers of bind, send, receive and the allocator are parameters, or any value, except that a write of some octets never answers 0, after which the source would try again without end.
- Printers, name tables and everything driven by regular expressions: no hard property.
- DnsCodec.Message.Decode: when decoding fails only the exception is specified, not which fields were already overwritten, because the source leaves a message in whatever state it reached.
- DnsCodec.EncodeRecord: when encoding fails only the octets before the record are said to be untouched, because the source does not undo what it wrote.
- DnsBuffer.Buffer.GetDnsDomainName: sizes and positions are unbounded numbers, because buffers are far smaller than the 32 bits of the source's counters.
- RDATA objects are given by their members in wire order, and records and questions as values: their identity in memory and the cached RDATA size are not modelled.
- DnsReadsBack.MessageReadsBack: is about messages whose names have no final dot and no empty label, because what becomes of others in a message depends on octets that happen to follow or are overwritten; DnsCompression.NameRoundTrip, DnsLimits.FinalDotUncompressed and DnsEmptyLabels.NameReadsBack say it for every single name. The same holds for DnsReadsBack.RecordReadsBack, DnsReadsBack.PlainMessageReadsBack and DnsReadsBack.RCodeExactly.
- The hash table's nodes and the cache's list are sequences of addresses: the pointers between nodes are not modelled, nor is an allocation that fails. Addresses are never used twice, so that every use of a freed object shows.
- Object types are modelled through their attributes: oo_compare compares the attributes listed one by one, the hash key is any function of the type and the identifying values, and oo_update is absent. Dumps that are interrupted, reference counts of caches and the request half of a resynchronization are not modelled. nl_object_get_id_attrs is not cut to 32 bits.
- nlmsg_append, nlmsg_expand and messages over an unaligned tail: the attribute calls modelled keep the tail aligned, which is proved where nla_nest_end would pad.
- NlAttributeBuilder.Message.NestEnd: is for the container opened last, because the programs modelled are well bracketed.
- used_ports_map is 1024 flags instead of 32 words, and the lock around it is not modelled: each operation is one step.
- NlHash.HashLittle: which way the key is read is a parameter, because addresses and their alignment are not modelled; the big-endian variant is left out.
- Desync.Attack: what tcp_get_auto_ttl computes is a parameter, because it rounds in floating point, and the identifiers of the packets are any numbers, because they are random. The captured packet has no IP options: with options no packet with data carries its segment whole, by ForgedPackets.PayloadWhole, and the TCP header of one without data would lie behind its end.
- Desync.StreamExactly: counts a reset as an empty segment, because it is about the octets of the stream; what a reset that the server accepts does to the connection is not modelled. The same holds for Desync.StreamPreserved.
- ForgedPackets.FormPacket: for an ihl below 5, or a TCP header that would reach behind the packet, no packet is formed in the model, because the source then writes over the IP header or outside the string.
- TlsSni.GetTlsSni: reading past the end of the buffer yields 0. With last_char at most the length of the buffer the only such read is that of the string's terminating zero, because nothing behind position last_char is read; what a greater last_char would do is not modelled.
- HttpChunked.WriteContentChunked: the provider writes any pieces in a call, empty ones too, but nothing behind done; compressors other than the identity are left out, and so are progress callbacks.
- WorkerPool.ThreadPool.EnqueueJob: a job is a number, because what it does is not the pool's concern; each critical section is one step, and which sleeping worker is woken is any one.
