# Verified models of FreeSWITCH 1.6.19 core data structures

Dafny models of in-place data structures, parsers and small protocols of the FreeSWITCH core, each proved
against an abstract value or a specification function. The models keep the imperative form of the C code:
linked nodes, arrays, counters and flags are fields that the methods change, and loops are loops.

- `HashTable`, `HashIterator`, `HashRuns`, `EqMap`: the chained hash table as a map modulo the caller's key
  equality, over growth, and over whole runs.
- `CoreHash`, `EventHeaders`: the deletion of selected bindings, whose keys are kept as event headers meanwhile.
- `ConsoleMatches`, `StableSort`, `Ordering`, `Letters`: the console's match list and its bubble sort on links.
- `InetPton4`, `InetPton6`, `AddressText`, `AddressForms`, `TextFields`: the address parsers, their exact
  languages, and the text forms of section 2.2 of RFC 4291.
- `Numerals`, `WrittenAddresses`: what digits stand for, and addresses that are written out and read back.
- `PortAllocator`, `PortTrack`, `PortRuns`: random probing with a cool-down, under a nondeterministic choice of
  the start, and whole runs of requests and frees.
- `Buffer`, `WritePath`, `FileHandle`: the sliding byte buffer and two clients that regroup a byte stream.
- `ChannelState`, `HoldRecords`, `DeviceRecords`: the call states, the hold accounting and the device records.
- `MediaBugs`, `MediaBugRuns`, `ReadCodec`: two pointer-linked lists with a derived field, the first over whole runs.
- `Wrappers`, `Octets`, `Sequences`, `Division`: shared types and facts.

`dafny verify dfyconfig.toml` checks all of it. A C string is a sequence of characters without its
terminator; a pointer that may be null is a nullable reference or an `Option`.

What a callback, an encoder, a file's writer or another thread does is an input: a function of the number of
the call, or a step of an interleaving.

Where the code does not do what its documentation or an obvious reading promises, the models follow the code,
with an input that shows it and the exact condition under which the promise is kept:

- a deletion of selected bindings forgets keys when one is empty, and takes a key that starts with `ARRAY::`
  apart (`EmptyKeyKept`, `WrongKeyGone`; `DeletesExactly`, `PlainKeysGone`);
- the address parser takes more than the text forms, and a `::` in a full address zeroes groups
  (`GapBesideWholeAddress`, `TrailingColonAccepted`; `PlainTextsAreTextForms`);
- not every range of ports maps its slots into the range, an odd one gives even ports, and a free of one of
  them misses its slot (`OddNeverFreed`; `InRangeExactly`, `EvenUnlessBoth`, `FreesFindExactly`);
- rounded up, an SPF_EVEN range that starts at port 65535 wraps to port 0 (`WrappedRange`; `OwnRangeExactly`);
- a dynamic buffer passes its limit in some run, unless its capacity is the limit from the start
  (`BeyondTheLimit`; `LimitHoldsExactly`);
- a frame can be reported as written although whole packets stay behind, when the channel is down
  (`SuccessWithPackets`; `WriteFrame`);
- closing a file does not tell that its writer refused a chunk (`LostAtClose`; `KeptExactly`, `Record`);
- interleaved, a hangup can take the state back (`GoesBackOnce`; `GoesBackExactly`);
- the tap-only flag is left clear, or cleared, where only native taps are attached (`StaleAfterRemove`,
  `StaleAfterPrune`; `MediaBugRuns.FlagSetByAdd`, `StaysExact`);
- a codec already on the stack, or one whose old links lead back to it, turns the stack into a loop
  (`CoveredPushedAgain`, `StaleRealCodec`; `Push`, `SetRealReadCodec`).

## Model

| member | source | states |
|---|---|---|
| HashTable.Create | freeswitch-1.6.19/src/switch_hashtable.c:56-90 | no table for a minimum size above 2^30; otherwise an empty one whose size is the first listed prime above the minimum |
| HashTable.NextPrimeRaisesLimit | freeswitch-1.6.19/src/switch_hashtable.c:42-52 | each growth step strictly raises both the size and the load limit, so one step is always enough |
| HashTable.SizesDouble | freeswitch-1.6.19/src/switch_hashtable.c:42-50 | the table sizes start at 53, have no small factors, and nearly double from one to the next |
| HashTable.LimitAndIndex | freeswitch-1.6.19/src/switch_hashtable.c:56-90 | the load limit is 65 percent of the size, rounded up; a bucket's number is the remainder of the hash |
| HashTable.HashTable.Expand | freeswitch-1.6.19/src/switch_hashtable.c:94-147 | the two-loop move into a larger array keeps every binding, puts each entry into the bucket of its cached hash, and fails only on the last prime |
| HashTable.HashTable.RemoveHashed | freeswitch-1.6.19/src/switch_hashtable.c:156-190 | removes the one binding whose key equals k modulo eqfn and keeps every other; hands back its value, or nothing if the value was to be freed or had a destructor |
| HashTable.HashTable.Remove | freeswitch-1.6.19/src/switch_hashtable.c:243-248 | the same for the bucket of k |
| HashTable.HashTable.Search | freeswitch-1.6.19/src/switch_hashtable.c:226-240 | finds exactly the value bound to a key equal to k, or nothing |
| HashTable.HashTable.Insert | freeswitch-1.6.19/src/switch_hashtable.c:193-223 | after a duplicate-checked insert an equal key answers the new value, every other key answers as before, and the load limit holds unless the last prime is reached |
| EqMap.LookupWithout | freeswitch-1.6.19/src/switch_hashtable.c:156-190 | removal hides exactly the keys equal to k |
| EqMap.LookupBind | freeswitch-1.6.19/src/switch_hashtable.c:193-223 | a binding changes the answer for exactly the keys equal to k |
| HashRuns.LookupIsLastWrite | freeswitch-1.6.19/src/switch_hashtable.c:94-240 | after any run the abstract map answers each key by the last insert or delete of an equal key |
| HashRuns.FindIsLastWrite | freeswitch-1.6.19/src/switch_core_hash.c:176-179 | a find returns the value last written under an equal key |
| HashRuns.DeleteIsLastWrite | freeswitch-1.6.19/src/switch_hashtable.c:171-182 | a delete after any history hands back the value of the last insert of an equal key if no delete came after it and it had no destructor, and nothing otherwise |
| HashRuns.Run | freeswitch-1.6.19/src/switch_core_hash.c:58-65 | for any run of inserts, deletes and finds on the table, growth included, all answers are the ones that the history alone determines |
| HashIterator.Next | freeswitch-1.6.19/src/switch_hashtable.c:283-314 | each call hands out the next entry of one fixed listing of the table, and ends after the last |
| HashIterator.EveryEntryOnce | freeswitch-1.6.19/src/switch_hashtable.c:283-333 | that listing holds every entry exactly once, entrycount of them |
| EventHeaders.DelimiterIsFirst | freeswitch-1.6.19/src/switch_utils.c:2539-2557 | a text is cut at the first `|:` there is, up to its very end |
| EventHeaders.Separate | freeswitch-1.6.19/src/switch_utils.c:2539-2557 | takes a text apart at each `|:`, so that joining the pieces gives it back (JoinPieces) |
| EventHeaders.Event.AddHeader | freeswitch-1.6.19/src/switch_event.c:1044-1060 | an empty value clears the headers of that name, an array is taken apart, anything else becomes one more header |
| EventHeaders.Event.AddArray | freeswitch-1.6.19/src/switch_event.c:922-966 | pushes the pieces of an array one after the other, and nothing when it is shorter than 8 |
| EventHeaders.Event.PushHeader | freeswitch-1.6.19/src/switch_event.c:992-1118 | a pushed value becomes an item of the first header, whose value turns into an array; without a header it starts one, is dropped when empty, or is taken apart once more |
| EventHeaders.RecordedExactly | freeswitch-1.6.19/src/switch_event.c:968-1158 | the headers hold exactly the added values, in order, if and only if none is empty and none is an array but a first one whose pieces put it together again |
| EventHeaders.RecordedPlain | freeswitch-1.6.19/src/switch_event.c:1046-1050 | without arrays the headers hold what was added after the last empty value |
| EventHeaders.AddedEdges | freeswitch-1.6.19/src/switch_event.c:922-1060 | an empty value clears the headers, an array of nothing leaves them as they are, an array of two items becomes one header of that value |
| CoreHash.CollectKeys | freeswitch-1.6.19/src/switch_core_hash.c:154-161 | the first loop adds the keys of the selected bindings to an event, in iteration order |
| CoreHash.DeleteMulti | freeswitch-1.6.19/src/switch_core_hash.c:140-173 | deletes the bindings whose keys are values of the headers that adding all selected keys leaves, keeps all others, and succeeds if and only if some binding that went had a value, was not to be freed and had no destructor |
| CoreHash.ValueSelected | freeswitch-1.6.19/src/switch_core_hash.c:154-161 | the callback sees the values: of two bindings exactly the one with the value it asks for goes |
| CoreHash.DeletesExactly | freeswitch-1.6.19/src/switch_core_hash.c:140-173 | the bindings that go are exactly the selected ones if and only if no selected key is empty and none starts with `ARRAY::`, but for a first one whose pieces put it together again |
| CoreHash.PlainKeysGone | freeswitch-1.6.19/src/switch_core_hash.c:140-173 | without such arrays exactly the bindings visited after the empty key go; these are the selected ones if and only if the empty key is not selected |
| CoreHash.EmptyKeyStays | freeswitch-1.6.19/src/switch_core_hash.c:163-168 | the binding of the empty key is never deleted |
| CoreHash.EmptyKeyKept | freeswitch-1.6.19/src/switch_core_hash.c:140-173 | a table with the keys `a` and the empty one keeps the empty one though all are selected |
| CoreHash.WrongKeyGone | freeswitch-1.6.19/src/switch_core_hash.c:140-173 | a table with `ARRAY::x` and `x` of which the first is selected: the other one goes |
| ConsoleMatches.Matches.Push | freeswitch-1.6.19/src/switch_console.c:1795-1816 | appends a match and keeps head, end and count |
| ConsoleMatches.Matches.PushUnique | freeswitch-1.6.19/src/switch_console.c:1781-1793 | appends only when no match is equal ignoring case |
| Letters.SameIgnoringCaseExactly | freeswitch-1.6.19/src/switch_console.c:1781-1793 | two matches are equal ignoring case if and only if their characters are the same or the same letter in both cases |
| Ordering.StrcmpIsLexicographic | freeswitch-1.6.19/src/switch_console.c:1742 | strcmp is negative if and only if, after a common beginning, the first ends or has the smaller character |
| ConsoleMatches.Matches.Compare | freeswitch-1.6.19/src/switch_console.c:1740-1767 | one comparison keeps the list a stable rearrangement and the larger value behind; after the last comparison of the first pass the tail points back to its predecessor if and only if it exchanged the last two of more than two nodes |
| ConsoleMatches.Matches.Pass | freeswitch-1.6.19/src/switch_console.c:1734-1768 | a pass puts the next largest value in place, even when it starts from a cyclic tail; the inner assert cannot fail |
| ConsoleMatches.Matches.Sort | freeswitch-1.6.19/src/switch_console.c:1723-1779 | the same nodes, stable, ended by null, with `end` on the last node; no later value comes before an earlier one in the order of character codes |
| ConsoleMatches.Collected | freeswitch-1.6.19/src/switch_console.c:1723-1816 | any values pushed and then sorted: a rearrangement of exactly these values in the order of character codes |
| StableSort.SortIsUnique | freeswitch-1.6.19/src/switch_console.c:1723-1779 | there is only one sorted stable rearrangement, so the result is fully determined |
| StableSort.StableIsPermutation | freeswitch-1.6.19/src/switch_console.c:1723-1779 | a stable rearrangement neither loses nor repeats a node |
| InetPton4.Scan | freeswitch-1.6.19/src/inet_pton.c:103-138 | the character loop accepts a text if and only if it is four non-empty decimal fields of value at most 255 joined by dots, and computes their values |
| InetPton4.Pton4 | freeswitch-1.6.19/src/inet_pton.c:103-140 | returns 1 and stores the four values for exactly those texts; otherwise the destination is untouched |
| Numerals.DigitsExactly | freeswitch-1.6.19/src/inet_pton.c:105-120 | a character stands for the position at which one of the digit tables has it, and is a digit if and only if one has it |
| Numerals.NumberIsWeighed | freeswitch-1.6.19/src/inet_pton.c:115-125 | the value read from digits is the sum of what they stand for, each weighed by its place |
| WrittenAddresses.QuadsExactly | freeswitch-1.6.19/src/inet_pton.c:103-140 | a text is accepted if and only if it is four texts of decimal digits joined by dots that stand for numbers up to 255, and its bytes are those numbers |
| WrittenAddresses.Store4 | freeswitch-1.6.19/src/inet_pton.c:103-140 | any four octets written out in decimal are read back by the parser |
| TextFields.SplitJoin | freeswitch-1.6.19/src/inet_pton.c:95-102 | splitting a joined list of fields gives the fields back |
| TextFields.JoinSplit | freeswitch-1.6.19/src/inet_pton.c:95-102 | joining the fields of a text gives the text back |
| InetPton6.Scan | freeswitch-1.6.19/src/inet_pton.c:174-215 | after the loop the bytes are those of the fields so far with the gap noted; it fails only on texts that no address denotes, and never writes past 16 bytes |
| InetPton6.Shift | freeswitch-1.6.19/src/inet_pton.c:216-229 | the overlapping backwards shift moves the bytes behind the gap to the end and zeroes the rest; no byte is overwritten before it is moved |
| InetPton6.Pton6 | freeswitch-1.6.19/src/inet_pton.c:156-235 | returns 1 and writes 16 bytes for exactly the texts of the specification function, otherwise leaves the destination alone |
| WrittenAddresses.ShowsExactly | freeswitch-1.6.19/src/inet_pton.c:158-190 | one to four digits of the tables, in either case, are a group of exactly the value they stand for |
| WrittenAddresses.GroupsReadBack | freeswitch-1.6.19/src/inet_pton.c:156-235 | eight groups so written, joined by colons, are read back |
| WrittenAddresses.CompressedReadsBack | freeswitch-1.6.19/src/inet_pton.c:156-235 | so are up to seven groups around a double colon, with zeros between them |
| WrittenAddresses.MixedReadsBack | freeswitch-1.6.19/src/inet_pton.c:156-235 | so are six groups and a dotted quad |
| WrittenAddresses.Store6 | freeswitch-1.6.19/src/inet_pton.c:156-235 | the parser returns 1 for eight groups so written and writes their bytes in network order |
| AddressForms.FullFormParses | freeswitch-1.6.19/src/inet_pton.c:142-154 | every full text form, with or without a dotted quad, parses to the bytes of its groups |
| AddressForms.CompressedFormParses | freeswitch-1.6.19/src/inet_pton.c:142-154 | every text form with `::` at any position parses to the bytes before it, zeros, and the bytes after it |
| AddressForms.PlainTextsAreTextForms | freeswitch-1.6.19/src/inet_pton.c:156-235 | a text is a text form if and only if it is accepted and has no group over four digits, no single colon at the end, and room for the gap |
| AddressForms.TrailingColonAccepted | freeswitch-1.6.19/src/inet_pton.c:188-200 | a single colon after eight groups is accepted as well |
| AddressForms.GapBesideWholeAddress | freeswitch-1.6.19/src/inet_pton.c:216-229 | a `::` beside groups, with or without a dotted quad, that fill all 16 bytes is accepted and zeroes what follows it; the comment at lines 149-151 says that it is ignored |
| PortAllocator.InRangeExactly | freeswitch-1.6.19/src/switch_core_port_allocator.c:76-108 | all slots map into the range if and only if the start is even, or with both parity flags, only when the range is that of all port numbers |
| PortAllocator.RoundedInwards | freeswitch-1.6.19/src/switch_core_port_allocator.c:76-95 | rounding moves an end of the range inwards by one at most, to a port of the parity; start 65535 wraps to 0 and, with SPF_ODD, end 0 to 65535 |
| PortAllocator.OwnRangeExactly | freeswitch-1.6.19/src/switch_core_port_allocator.c:76-108 | all ports of an SPF_EVEN allocator lie in the range asked for if and only if its start is not 65535 |
| PortAllocator.FreesFindExactly | freeswitch-1.6.19/src/switch_core_port_allocator.c:226-230 | a free of each port finds its slot if and only if the start is even, or with both parity flags if the end is not 65535 |
| PortAllocator.OddFreesLookBelow | freeswitch-1.6.19/src/switch_core_port_allocator.c:222-230 | with an odd start a free looks at the slot below the port's own, and the first port is below the range |
| PortAllocator.OddNeverFreed | freeswitch-1.6.19/src/switch_core_port_allocator.c:218-244 | an SPF_ODD allocator with one port in use: it cannot be freed |
| PortAllocator.EvenUnlessBoth | freeswitch-1.6.19/src/switch_core_port_allocator.c:174-179 | unless both parity flags are set every port is even, and so it is with SPF_ODD alone; RequestPort says it of the port it returns |
| PortAllocator.EvenSlot | freeswitch-1.6.19/src/switch_core_port_allocator.c:174-179 | with an even range each slot is an even port of the range, and a free of that port finds the slot again |
| PortAllocator.EvenPort | freeswitch-1.6.19/src/switch_core_port_allocator.c:226-230 | every even port of the range has its slot; the odd port above leads to the same slot |
| PortAllocator.HeldCount | freeswitch-1.6.19/src/switch_core_port_allocator.c:171-198 | the held ports are as many as the slots at 1 |
| PortAllocator.PortAllocator.constructor | freeswitch-1.6.19/src/switch_core_port_allocator.c:51-116 | rounds the range to its parity, sizes the slots and starts with all of them free |
| PortAllocator.PortAllocator.Probe | freeswitch-1.6.19/src/switch_core_port_allocator.c:161-169 | walks the slots round from a random one, moving each passed cool-down count one step, and ends on a free slot or after all of them |
| PortAllocator.PortAllocator.Probing | freeswitch-1.6.19/src/switch_core_port_allocator.c:153-200 | whatever the random starts, within five passes a slot is issued, if and only if one was unused |
| PortAllocator.PortAllocator.RequestPort | freeswitch-1.6.19/src/switch_core_port_allocator.c:143-216 | succeeds exactly when track_used < track_len; in SPF_EVEN mode the port is even, in range, not held before, and the held set grows by it alone |
| PortAllocator.PortAllocator.FreePort | freeswitch-1.6.19/src/switch_core_port_allocator.c:218-244 | succeeds exactly for a slot at 1, which starts its cool-down at -4; in SPF_EVEN mode that is when the even port at or below the given one is held, and the held set loses that port alone |
| PortAllocator.PortAllocator.FreeTwice | freeswitch-1.6.19/src/switch_core_port_allocator.c:218-244 | a second free of the port fails and changes nothing |
| PortRuns.Run | freeswitch-1.6.19/src/switch_core_port_allocator.c:143-244 | over any run of requests and frees on a new SPF_EVEN allocator, frees of ports never issued included, every outcome and the held set are those of the history; unless the start is 65535, a request succeeds if and only if an even port of the range asked for is not held, and returns such a port |
| PortRuns.WrappedRange | freeswitch-1.6.19/src/switch_core_port_allocator.c:76-95 | the range of port 65535 alone: a request succeeds with a port below it |
| PortRuns.FreedBetween | freeswitch-1.6.19/src/switch_core_port_allocator.c:143-244 | in any such history a port issued twice was freed in between |
| PortAllocator.PortAllocator.Pass | freeswitch-1.6.19/src/switch_core_port_allocator.c:153-200 | one pass issues the unused slot it ends on; else it moves each cool-down count one step, which strictly lowers their sum |
| PortTrack.FailedPassCools | freeswitch-1.6.19/src/switch_core_port_allocator.c:161-169 | by how much a pass that issues nothing lowers the sum of the cool-down counts: one for each slot not in use |
| PortTrack.Quarantine | freeswitch-1.6.19/src/switch_core_port_allocator.c:161-169 | in any run, between a free of a slot and its next issue the search steps over it exactly four times |
| Buffer.Buffer.Fixed | freeswitch-1.6.19/src/switch_buffer.c:93-105 | an empty buffer of fixed capacity |
| Buffer.Buffer.Dynamic | freeswitch-1.6.19/src/switch_buffer.c:107-136 | an empty buffer that may grow |
| Buffer.Buffer.Partition | freeswitch-1.6.19/src/switch_buffer.c:68-91 | a read-only buffer whose contents are the caller's bytes |
| Buffer.Buffer.FreeSpace | freeswitch-1.6.19/src/switch_buffer.c:170-180 | the free space; above its limit the unsigned difference of a dynamic buffer exceeds the limit itself |
| Buffer.Buffer.Toss | freeswitch-1.6.19/src/switch_buffer.c:187-204 | drops the oldest bytes, at most as many as there are |
| Buffer.Buffer.ReadLoop | freeswitch-1.6.19/src/switch_buffer.c:211-226 | a read that finds nothing uses up one loop and starts over from the first byte, unless no loop is left |
| Buffer.Buffer.Drain | freeswitch-1.6.19/src/switch_buffer.c:206-226 | reads of any sizes until nothing comes yield the unread bytes and then one copy per loop left |
| Buffer.Buffer.ReadAllLoops | freeswitch-1.6.19/src/switch_buffer.c:206-226 | a partition set to k loops yields exactly k copies |
| Buffer.Buffer.Read | freeswitch-1.6.19/src/switch_buffer.c:228-246 | returns and removes the oldest bytes, in order |
| Buffer.Buffer.Peek | freeswitch-1.6.19/src/switch_buffer.c:248-264 | returns the oldest bytes and keeps them |
| Buffer.Buffer.Write | freeswitch-1.6.19/src/switch_buffer.c:283-338 | appends all the bytes exactly when they fit, else changes nothing a reader sees; compaction and growth lose no byte |
| Buffer.Buffer.Zero | freeswitch-1.6.19/src/switch_buffer.c:340-347 | empties the buffer |
| Buffer.Buffer.ZeroWrite | freeswitch-1.6.19/src/switch_buffer.c:349-363 | starts over with the new bytes when they do not fit beside the old ones |
| Buffer.Buffer.SlideWrite | freeswitch-1.6.19/src/switch_buffer.c:365-379 | keeps the old contents minus as many oldest bytes as are written, then the new ones, whenever these fit the capacity |
| Buffer.LimitHoldsExactly | freeswitch-1.6.19/src/switch_buffer.c:283-338 | the fill of a dynamic buffer stays within its limit over every run of writes and reads if and only if its capacity equals the limit |
| Buffer.Perform | freeswitch-1.6.19/src/switch_buffer.c:228-338 | after any run of writes and reads the buffer has the fill and the capacity of that run |
| Buffer.BeyondTheLimit | freeswitch-1.6.19/src/switch_buffer.c:300-326 | two writes that leave a buffer with limit 20 holding 30 bytes |
| WritePath.LoopEndIs | freeswitch-1.6.19/src/switch_core_io.c:1470-1621 | the loop ends at the first round that does not get out, or when no whole packet is left; every round takes a packet but one that finds the channel down |
| WritePath.AllRoundsOut | freeswitch-1.6.19/src/switch_core_io.c:1470-1621 | if no round stops it, the loop encodes as many packets as the packet length goes into the bytes |
| WritePath.Session.EncodeAll | freeswitch-1.6.19/src/switch_core_io.c:1470-1621 | the status, the packets encoded and the rounds begun are those of that end; if no round stopped it, less than a packet is left |
| WritePath.Session.WriteFrame | freeswitch-1.6.19/src/switch_core_io.c:1446-1623 | packets so far plus remainder grow by exactly the frame; every new packet has the exact length, and there are as many as the loop's end says; success with a whole packet left comes if and only if a round found the channel down |
| WritePath.SuccessWithPackets | freeswitch-1.6.19/src/switch_core_io.c:1473-1476 | a channel that is down: success, though nothing was encoded |
| WritePath.Run | freeswitch-1.6.19/src/switch_core_io.c:1446-1623 | for any frames, the packets in order followed by the remainder are the bytes received; if no round that was begun stopped a loop, all whole packets are out and less than one is left |
| FileHandle.SamplesCarry | freeswitch-1.6.19/src/switch_core_file.c:586-589 | the two truncating divisions lose exactly the bytes beyond a whole number of samples |
| FileHandle.FileHandle.HandOver | freeswitch-1.6.19/src/switch_core_file.c:584-591 | a call of the file's writer adds the whole samples of the chunk to the file if the call takes it, and nothing else |
| FileHandle.KeptLength | freeswitch-1.6.19/src/switch_core_file.c:571-596 | the file holds as many bytes as were handed over if and only if every call was taken and every chunk was of whole samples |
| FileHandle.FileHandle.Write | freeswitch-1.6.19/src/switch_core_file.c:571-596 | buffers exactly the data and hands over exactly one chunk once one is there; fails if and only if that call refuses it, and then reports no samples |
| FileHandle.FileHandle.Close | freeswitch-1.6.19/src/switch_core_file.c:805-825 | the flush loop ends with nothing buffered or at the first refusal, which the status does not tell |
| FileHandle.FileHandle.AllWritten | freeswitch-1.6.19/src/switch_core_file.c:805-825 | the closed file holds exactly the bytes accepted if and only if no call of all was refused and no chunk was clipped |
| FileHandle.FileHandle.KeptExactly | freeswitch-1.6.19/src/switch_core_file.c:571-825 | the same for whole samples in terms of the chunk size: none is clipped if and only if the chunk size is a whole number of samples or there were fewer bytes than that |
| FileHandle.LostAtClose | freeswitch-1.6.19/src/switch_core_file.c:805-825 | a writer that refuses its only call: closing returns success and the bytes accepted are not in the file |
| FileHandle.Record | freeswitch-1.6.19/src/switch_core_file.c:571-825 | any blocks of whole samples written and the file closed, whatever is refused: the file holds the chunks taken, in order; it holds exactly the blocks if and only if all were taken and none was clipped |
| ChannelState.ListedExactly | freeswitch-1.6.19/src/switch_channel.c:2309-2462 | the nested switch of transitions in closed form |
| ChannelState.Channel.SetState | freeswitch-1.6.19/src/switch_channel.c:2269-2488 | a permitted request takes effect, any other leaves the state; a cause is set by the step to hangup alone, if there is none yet; when the assert on an invalid transition trips |
| ChannelState.Channel.PerformHangup | freeswitch-1.6.19/src/switch_channel.c:3220-3296 | a first hangup of a channel that is up takes it to hangup with the cause given and fires one event; any other changes the flag at most |
| ChannelState.DownForGood | freeswitch-1.6.19/src/switch_channel.c:2269-2488 | once at hangup or later, over any run the state never goes back, changes at most twice more, and no request trips the assert |
| ChannelState.FiresAtMostOnce | freeswitch-1.6.19/src/switch_channel.c:3220-3296 | in any run on a new channel the hangup event fires at most once |
| ChannelState.FiredExactly | freeswitch-1.6.19/src/switch_channel.c:3220-3296 | in any run on a new channel the channel is down from the first hangup on, and that hangup fires the event, once and with its cause, if and only if it met a channel that was not down |
| ChannelState.Uninterrupted | freeswitch-1.6.19/src/switch_channel.c:3220-3296 | the steps of a hangup call that nothing comes between do what the whole hangup does |
| ChannelState.InterleavedHangups | freeswitch-1.6.19/src/switch_channel.c:3220-3296 | however hangup calls and requests interleave, one call at most passes the gate and fires the event |
| ChannelState.GoesBackExactly | freeswitch-1.6.19/src/switch_channel.c:3257-3270 | in any interleaving a step takes the state back if and only if it is the store of a hangup call and a request has taken the channel beyond hangup since that call looked |
| ChannelState.NeverBack | freeswitch-1.6.19/src/switch_channel.c:3257-3270 | without such a request a channel that is down never goes back |
| ChannelState.GoesBackOnce | freeswitch-1.6.19/src/switch_channel.c:3257-3270 | a concrete interleaving that goes from reporting back to hangup |
| HoldRecords.Channel.SetHolding | freeswitch-1.6.19/src/switch_channel.c:1800-1860 | opens a record exactly when an answered channel was not holding |
| HoldRecords.Channel.ClearHolding | freeswitch-1.6.19/src/switch_channel.c:1995-2044 | closes the open record and adds exactly its length to the total |
| HoldRecords.Channel.MarkHold | freeswitch-1.6.19/src/switch_channel.c:841-872 | reaches the hold state asked for, with exactly the records of a begun or an ended hold, and changes nothing when already there |
| HoldRecords.Channel.PerformHangup | freeswitch-1.6.19/src/switch_channel.c:3220-3256 | closes the open record and keeps the others; the branch that would close one without counting it is never taken |
| HoldRecords.Channel.OnlyNewestOpen | freeswitch-1.6.19/src/switch_channel.c:1843-1860 | only the newest record can be open, and only while holding |
| HoldRecords.Run | freeswitch-1.6.19/src/switch_channel.c:1800-2044 | any run under a clock that does not go back leaves exactly the flags and the records that its history determines, and hold_accum is the sum of off - on over the closed ones |
| HoldRecords.HeldExactly | freeswitch-1.6.19/src/switch_channel.c:1800-2044 | over any history the records, with the open one so far, last exactly as long as the channel was on a hold that began after the answer |
| HoldRecords.Account | freeswitch-1.6.19/src/switch_channel.c:1800-2044 | so after any run on a new channel that ends with a hangup hold_accum is that time |
| DeviceRecords.FetchStats | freeswitch-1.6.19/src/switch_channel.c:4863-4945 | counts all legs, the off-hook ones, and these by call state, with dialing as active; a leg that is hung up counts as hup |
| DeviceRecords.OffHookByState | freeswitch-1.6.19/src/switch_channel.c:4882-4933 | every off-hook leg is in exactly one call state, so the off-hook count is the sum over the states |
| DeviceRecords.CountsAddUp | freeswitch-1.6.19/src/switch_channel.c:4870-4941 | the call-state counts cover every leg exactly once, except the off-hook ones that are down |
| DeviceRecords.Registry.SetCallState | freeswitch-1.6.19/src/switch_channel.c:270-281 | a new call state reaches the leg in the device record as well; a channel that is hung up keeps its state; so a leg always shows its channel's state |
| DeviceRecords.Registry.FindOrCreate | freeswitch-1.6.19/src/switch_channel.c:5285-5303 | the record of the device that is in the table, or a new empty one put there |
| DeviceRecords.AddUuid | freeswitch-1.6.19/src/switch_channel.c:5239-5264 | appends an off-hook leg for the channel and counts its reference |
| DeviceRecords.Registry.SetDeviceId | freeswitch-1.6.19/src/switch_channel.c:5285-5311 | joins the record in the table or a new one, refuses a channel that has a leg, and keeps the invariant of all records |
| DeviceRecords.Registry.ProcessHangup | freeswitch-1.6.19/src/switch_channel.c:5012-5066 | the last off-hook leg takes its record out of the table and becomes the final leg, any other lets go of it; refs stays the off-hook count of every record |
| DeviceRecords.Registry.OneFinalLeg | freeswitch-1.6.19/src/switch_channel.c:5012-5066 | a finished record has exactly one final leg, which is the only channel still pointing into it; it has no references and is not in the table |
| DeviceRecords.Registry.NoFinalLegYet | freeswitch-1.6.19/src/switch_channel.c:5012-5066 | a record with an off-hook leg is in the table, has refs equal to the off-hook count, no final leg, and is not destroyed |
| DeviceRecords.Registry.ClearRecord | freeswitch-1.6.19/src/switch_channel.c:4947-5002 | when the record is destroyed nobody else points into it, it is not in the table, and the bounded wait is never entered |
| DeviceRecords.NobodyOffHook | freeswitch-1.6.19/src/switch_channel.c:4863-4945 | the off-hook count is zero if and only if every leg is hung up |
| MediaBugs.Session.Add | freeswitch-1.6.19/src/switch_core_media_bug.c:783-979 | the status of every refusal; on success the bug is first on the list and the tap-only flag says exactly whether all bugs are native taps |
| MediaBugs.Session.Remove | freeswitch-1.6.19/src/switch_core_media_bug.c:1311-1362 | removes the bug, and no other, exactly when it is on the list and neither locked nor another thread's; clears the tap-only flag unless the bug is locked |
| MediaBugs.Session.RemoveAllFunction | freeswitch-1.6.19/src/switch_core_media_bug.c:1217-1268 | removes and destroys exactly the removable bugs of the function and keeps the rest in order |
| MediaBugs.Session.Prune | freeswitch-1.6.19/src/switch_core_media_bug.c:1365-1404 | terminates, removes and destroys exactly the marked bugs, keeps the rest in order and returns their number |
| MediaBugs.Session.FindPruned | freeswitch-1.6.19/src/switch_core_media_bug.c:1370-1388 | a search with `last` left over from the one before still ends on the first marked bug with its true predecessor |
| MediaBugs.RemovedCount | freeswitch-1.6.19/src/switch_core_media_bug.c:1365-1404 | what is left is the list less as many bugs as were taken out |
| MediaBugs.WithoutHolds | freeswitch-1.6.19/src/switch_core_media_bug.c:1217-1268 | a bug is left on the list if and only if it was there and was not taken out |
| MediaBugRuns.History.Step | freeswitch-1.6.19/src/switch_core_media_bug.c:783-1404 | each operation hands back and leaves behind, in the list, the flag, and the locks of the bugs, what the history of the session demands |
| MediaBugRuns.FlagIsSound | freeswitch-1.6.19/src/switch_core_media_bug.c:783-1404 | after any history a set flag means native taps only |
| MediaBugRuns.FlagSetByAdd | freeswitch-1.6.19/src/switch_core_media_bug.c:783-1404 | after any history the flag is set if and only if the last operation to set it, a successful add or the removal of an unlocked bug even if it is on no list, was an add that saw native taps only |
| MediaBugRuns.StaysExact | freeswitch-1.6.19/src/switch_core_media_bug.c:783-1404 | a flag that says exactly whether there are only native taps goes on to do so unless only native taps are left and the operation was the removal of an unlocked bug or took the last other bug away without setting the flag |
| MediaBugRuns.Run | freeswitch-1.6.19/src/switch_core_media_bug.c:783-1404 | any run on a new session leaves the list, the flag and the answers that its history alone determines |
| MediaBugs.StaleAfterRemove | freeswitch-1.6.19/src/switch_core_media_bug.c:1311-1362 | two native taps of which one is removed: the flag is clear |
| MediaBugs.StaleAfterPrune | freeswitch-1.6.19/src/switch_core_media_bug.c:1365-1404 | a native tap and another bug that is pruned: the flag stays clear |
| ReadCodec.Session.SetRealReadCodec | freeswitch-1.6.19/src/switch_core_codec.c:94-195 | replaces the real codec under the ready codecs above it; the stack still ends if and only if the new codec's own list does not contain the codec it is linked to; a new codec whose links already form a loop stays in one |
| ReadCodec.Session.SetReadCodec | freeswitch-1.6.19/src/switch_core_codec.c:197-303 | a push, a no-op or a pop; read_impl follows the codec in use |
| ReadCodec.Session.Push | freeswitch-1.6.19/src/switch_core_codec.c:212-238 | after a push the stack ends if and only if the codec was not on it |
| ReadCodec.Session.Pop | freeswitch-1.6.19/src/switch_core_codec.c:239-271 | goes one codec down, or to the real codec at the bottom, and is one step nearer to it |
| ReadCodec.Session.PushThenPop | freeswitch-1.6.19/src/switch_core_codec.c:197-303 | restores the codec in use, its implementation and the stack, unless the codec pushed is the real one |
| ReadCodec.Session.PopToReal | freeswitch-1.6.19/src/switch_core_codec.c:239-271 | from every state pops reach the real codec, as many as there are codecs above it |
| ReadCodec.Session.Destroy | freeswitch-1.6.19/src/switch_core_codec.c:907-942 | wiping a codec anywhere leaves finite stacks, cut off behind it; one that is not ready is left as it is |
| ReadCodec.Session.Unset | freeswitch-1.6.19/src/switch_core_codec.c:46-60 | empties the stack from any state, even one that has no end |
| ReadCodec.VisitsOnce | freeswitch-1.6.19/src/switch_core_codec.c:94-303 | a stack that ends visits no codec twice |
| ReadCodec.CoveredPushedAgain | freeswitch-1.6.19/src/switch_core_codec.c:212-238 | a, b and a again pushed on a new session: the stack has no end |
| ReadCodec.StaleRealCodec | freeswitch-1.6.19/src/switch_core_codec.c:124-133 | a new real codec whose old link leads back to the codec above it: the stack has no end |
| ReadCodec.NeverEnds | freeswitch-1.6.19/src/switch_core_codec.c:94-303 | codecs that only link among themselves start no stack that ends |
| ReadCodec.Replaced | freeswitch-1.6.19/src/switch_core_codec.c:124-133 | both outcomes of linking the codec above the real one to a new one |

## Left out

- The bit-mixing of the cached hash (`switch_hashtable_private.h`): the models take any hash that eqfn respects, reduced modulo the length.
- Failing allocations everywhere, with the realloc fallback of the table's growth (switch_hashtable.c:123-143); freeing of keys; destruction of a whole table.
- The load limit uses the exact factor 65/100 where the code multiplies by the float 0.65f, which may round the limit differently.
- The table's iterator is two values that each step returns, where the code updates a heap record in place.
- HashTable.HashTable.Insert: without the duplicate check it is specified only for a key that is not in the table, as the header demands.
- Byte values above 127 in the comparisons of the console and the media bugs, where strcmp and strcasecmp depend on char and locale.
- The robustness checks of the port allocator and its sockets; SPF_ODD alone, no flag, and both flags, beyond what InRangeExactly and the constructor say.
- PortAllocator.PortAllocator.FreePort: a port so far above the range that its slot lies outside the track array, which the code does not check; the runs of PortRuns have no frees of such ports either.
- Buffer mutexes and ids, peek_zerocopy, and overflow of sizes other than in FreeSpace; Read returns its bytes where the code copies them to the caller.
- The branch for frames that match a packet exactly, the read path, codecs and resamplers of switch_core_io.c; of an encoder and of the write behind it only the outcome of each round is an input.
- Writing without a pre-buffer, resampling, seeking and truncating in switch_core_file.c.
- Logging, events other than the headers of one name that CoreHash fills, unique and indexed headers, presence, DTMF, other channel flags, several caller profiles, and clearing of CF_ANSWERED.
- HoldRecords reads one clock value per operation where the code may read it twice.
- Interleaving is modelled for hangup calls only; the other models take each call as one step, as its mutex makes it.
- The derived state of a device (switch_channel.c:5068-5227), the inbound and outbound halves of its counts, and the copies of profiles, hold records and events a leg leaves behind.
- DeviceRecords.Registry.ProcessHangup: called once per leg; a second call for a final leg would lower refs below the off-hook count.
- A leg is a slot of its record's list rather than a node with its own address; the legs live and die with the record.
- Callbacks, buffers, video threads and events of media bugs; the flags that make a bug a native tap do not change once it is attached.
- remove_callback of media bugs (switch_core_media_bug.c:1407-1450), which repeats the loop of RemoveAllFunction under another condition.
- Frames, events and channel variables that a change of codec updates; a codec on the stack is not initialised again in place.
- Process control, database, XML, DSO and speech wrappers, estimators, and the fscomm program.
