# Verification of the ZCRT runtime and the ZIPC message layer

This project models the core of the ZCRT/ZIPC library in Dafny and proves what
the library relies on:

- the **ZTLV codec** on its growable buffer: ZigZag, the hand-unrolled 32- and
  64-bit varint readers and writers, the typed puts and gets, indexed arrays;
- the **message layer** on the codec: the common header, the names in a request,
  event frames with a size that is filled in afterwards;
- the **event registry**: priority lists that share one free list, registering in
  two lock sections, sending while callbacks change the lists, and the end of a
  registry;
- the **kernel recursive mutex** as a protocol of single memory accesses;
- the **chained hash table**, the **component registry** on it, and the deletion
  of a component tree;
- the **allocator of the kernel build** with its list of records.

`dafny verify dfyconfig.toml` checks everything.

## How to read it

Each part has a *reference*, a short definition on sequences, and the *code*,
written the way the C code is: methods that change the fields of a class or the
bytes of an array, with the same branches and the same constants. The methods are
proved against the reference and the theorems are proved about the reference.

| part | reference and theorems | code |
|---|---|---|
| machine integers | `machine.dfy` | |
| numbers | `leb128.dfy` | `varint.dfy` |
| buffer | `zbuf.dfy` | `zbuf.dfy` |
| typed values | `tlv_format.dfy`, `tlv_laws.dfy`, `tlv_wire.dfy`, `tlv_ignore.dfy` | `ztlv.dfy`, `exchange.dfy` |
| arrays | `tlv_array.dfy` | `tlv_array.dfy`, `zarraylist.dfy` |
| messages | `zipc_header.dfy`, `zipc_frame.dfy`, `zipc_body.dfy` | `zipc_msg.dfy`, `zipc_body.dfy` |
| events | `event_order.dfy`, `event_runs.dfy`, `event_send.dfy` | `zevent.dfy`, `zevent_api.dfy`, `zevent_send.dfy`, `zevent_threads.dfy` |
| linked nodes | `chains.dfy`, `chains_free.dfy` | |
| mutex | `mutex.dfy` | `mutex.dfy` |
| hash table | `assoc_list.dfy`, `hash_runs.dfy` | `zhash.dfy`, `hash_runs.dfy` |
| components | `component_names.dfy`, `component_registry.dfy` | the same, `component_tree.dfy` |
| allocator | `zcrt_mem.dfy` | `zcrt_mem.dfy` |

Conventions:

- Machine integers are bounded mathematical integers; every cast that can change
  a value is written (`U32`, `S32`, ...). The bitwise operators are defined bit by
  bit in `machine.dfy`, so that C expressions such as `(n << 1) ^ (n >> 31)` stand
  in the model as they are. `char` is signed.
- Linked structures keep their nodes in an explicit memory, a map from addresses
  to nodes. Reading, writing or freeing a node needs it to be in the map, so a
  use after a free or a second free cannot be written. Addresses of new nodes are
  chosen by the allocator among all that are free. A ghost bookkeeping says where
  every node is: at which place of which chain, or held by a thread.
- A getter is a function of the whole block behind the buffer, the length of the
  contents and the cursor. Its result `Outside` (`Beyond` in the header parser)
  means that it would read beyond the block. For a buffer that has grown this is
  proved never to happen, on any bytes; for other blocks the methods require it.
- What comes from elsewhere is a parameter: the serial number of
  `zcrt_unique_id`, what an event encoder appends, what callbacks do (a finite
  script), when `kmalloc` fails, thread ids and schedules.
- A null object stands for a handle that is `NULL`; `None` for other pointers
  that the code tests for `NULL`.

## What the code does not do

Where the code does less than it seems to promise, the model keeps the code and
says exactly when it does what is wanted:

- Growing a buffer ends, with a capacity that is large enough, if and only if the
  requested length is below 2^31-1 (`ZBuffer.GrowthWorks`).
- Gets may move the cursor and read up to two bytes behind the contents, also in
  runs that go on after a get has failed (`TlvLaws.RunBounded`); both bytes can
  really be reached (`TlvLaws.SlackIsNeeded`). A buffer that has grown at least
  once has them.
- A slice handed out by `ztlv_get_string` lies in the contents if and only if
  cursor plus length does not wrap (`TlvLaws.SliceInside`), and a length that
  makes it wrap can be received (`TlvLaws.SliceCanWrap`).
- `ztlv_get_ignore` takes the tag and then calls a getter that takes a tag again.
  It skips a bool if and only if the bool ends the contents
  (`TlvIgnore.IgnoreBool`), an int if and only if its payload is one byte that is
  not the tag of a number that can be read behind it (`TlvIgnore.IgnoreInt`), and
  a string if and only if it is empty, or has 17 bytes that start with a number
  leading to its end (`TlvIgnore.IgnoreString`). Long integers, tables and nil are
  never skipped; it returns false behind their tag (`TlvIgnore.IgnoreRefuses`).
- `owner` of the mutex is not its holder (`KernelMutex.OwnerIsNotHolder`); a
  nested lock returns if and only if `owner` still names the holder
  (`KernelMutex.NestedLockReturns`), and otherwise never.
- `ztlv_put_int64` calls -2^31 a long value, one short of the int32 range
  (`TlvLaws.SamePayload`).
- `zcrt_event_unregister` asserts that the event is not the one being sent by
  comparing with `lastEvtid`, which is 0 between sends; so after any run, while
  nothing is being sent, the assertion holds if and only if the event is not
  event 0 (`ZEventSend.UnregisterAfter`). The kernel build only reports it.
- `zipc_encode_event` writes the size at the front of the block. The frame it
  appends gets a right head if and only if the buffer was empty, or held a
  single byte and the payload has 0x01010100 bytes, a size that is right when it
  is shifted by one byte (`ZipcMsg.SizeReachesFrame`).
- `zcrt_malloc(0)` hands out what `kmalloc(0)` returns, one address for all. Each
  such allocation has a record of its own, so records share a pointer if and only
  if at least two of them are out (`ZcrtMem.SharedOnlyByZeros`). A pointer to a
  block has exactly one record (`ZcrtMem.OneRecordEach`).
- The bool array macros keep a slot if and only if it is 0 or 1
  (`TlvArray.BoolSlotBack`); a `bool_t` is a byte.
- Two names that agree in their first 63 characters are one name to the registry
  (`ComponentRegistry.LongNamesCollide`).

## Model

| member | source | states |
|---|---|---|
| VarInt.ZigZagEncode32 | zipc/zipc_tlv.c:40-43 | the C bit expression is the ZigZag map of int32 onto uint32 |
| VarInt.ZigZagDecode32 | zipc/zipc_tlv.c:44-48 | the C bit expression is its inverse, for all words |
| VarInt.ZigZagEncode64 | zipc/zipc_tlv.c:49-53 | the same for 64 bits |
| VarInt.ZigZagDecode64 | zipc/zipc_tlv.c:54-58 | the same for 64 bits |
| Leb128.SumEncode | zipc/zipc_tlv.c:257-325 | adding up the groups of an encoding gives the number back, for every number |
| Leb128.EncodeTerminated | zipc/zipc_tlv.c:257-325 | exactly the last byte of an encoding has no continuation bit |
| Leb128.Shortest | zipc/zipc_tlv.c:257-325 | no terminated byte string with the same sum is shorter than the encoding |
| Leb128.EncodeUnique | zipc/zipc_tlv.c:257-325 | a terminated byte string no longer than the encoding of its sum is that encoding |
| Leb128.EncodeLength | zipc/zipc_tlv.c:257-325 | the number of bytes is the number of base-128 digits |
| Leb128.EncodeFits | zipc/zipc_tlv.c:201-242 | a 32-bit number takes at most 5 bytes, a 64-bit number at most 10 |
| VarInt.ReadLen32 | zipc/zipc_tlv.c:59-99 | the unrolled reader stops where the group scan stops and returns the group sum modulo 2^32 |
| VarInt.ReadLen64 | zipc/zipc_tlv.c:113-184 | the unrolled reader stops where the group scan stops and returns the group sum modulo 2^64, although it adds up three parts |
| VarInt.ReadFour | zipc/zipc_tlv.c:118-166 | each run of four bytes collects the sum of its groups |
| VarInt.ReadLast | zipc/zipc_tlv.c:168-179 | bytes nine and ten, of which only the second is checked against the limit |
| VarInt.Combine | zipc/zipc_tlv.c:181-183 | the three overlapping parts, shifted and joined with or, are the sum modulo 2^64 |
| VarInt.ScanDone | zipc/zipc_tlv.c:59-99 | the scan succeeds with n bytes if and only if n bytes of the block are terminated there and the limit lets them through |
| VarInt.ScanLong | zipc/zipc_tlv.c:113-184 | a successful scan has read at least one and at most the maximal number of bytes, all inside the block |
| VarInt.ScanBounded | zipc/zipc_tlv.c:113-184 | a scan depends on no byte more than two behind the limit |
| VarInt.WriteLen32 | zipc/zipc_tlv.c:201-242 | writes exactly the encoding of the word and changes nothing else |
| VarInt.ChooseSize | zipc/zipc_tlv.c:273-309 | the search tree over the three parts finds the length of the encoding |
| VarInt.WriteFour | zipc/zipc_tlv.c:314-321 | four overlapping groups of a 32-bit slice, marked |
| VarInt.Assemble | zipc/zipc_tlv.c:257-325 | the marked groups of the three 32-bit slices, with the last mark cleared, are the encoding of the 64-bit value |
| VarInt.WriteLen64 | zipc/zipc_tlv.c:257-325 | writes exactly the encoding of the value, 1 to 10 bytes, and changes nothing else |
| ZBuffer.LeavesWithLeastPower | zcrtlib/zbuf.c:86-103 | where the doubling loop ends it has the least power of two above the length plus one |
| ZBuffer.GrowthWorks | zcrtlib/zbuf.c:86-103 | the doubling loop ends with a large enough capacity if and only if the length is below 2^31-1 |
| ZBuffer.GrowthIsLeastPower | zcrtlib/zbuf.c:86-103 | no smaller power of two would do |
| ZBuffer.GrowthMonotone | zcrtlib/zbuf.c:86-103 | a longer length never grows to a smaller capacity, so every reallocation asks for at least the old size |
| ZBuffer.DoubleUpTo | zcrtlib/zbuf.c:94-97 | the loop ends with that capacity |
| ZBuffer.ReallocBlock | zcrtlib/zbuf.c:99-99 | the new block is at least as large and keeps the old block's bytes |
| ZBuffer.ZBuf.Realloc | zcrtlib/zbuf.c:86-103 | contents, cursor and capacities are kept, and there is room for the length |
| ZBuffer.ZBuf.Append | zcrtlib/zbuf.c:54-67 | the contents become the old contents followed by the bytes, whether or not the block moves |
| ZBuffer.ZBuf.Get | zcrtlib/zbuf.c:69-84 | the cursor moves by the length exactly when the wrapped sum stays inside the contents |
| ZBuffer.ZBuf.GetStr | zcrtlib/zbuf.c:105-118 | the slice at the cursor, or failure with the cursor at the end of the contents |
| ZBuffer.ZBuf.Clear | zcrtlib/zbuf.c:120-128 | empties the contents and keeps the block |
| Ztlv.PutType | zipc/zipc_tlv.c:376-380 | appends the tag |
| Ztlv.PutLen | zipc/zipc_tlv.c:506-516 | appends the encoding of the length |
| Ztlv.PutBool | zipc/zipc_tlv.c:462-466 | appends the bool's tag |
| Ztlv.PutInt | zipc/zipc_tlv.c:468-475 | appends the tag and the encoded ZigZag value |
| Ztlv.PutInt64 | zipc/zipc_tlv.c:628-643 | chooses the tag by the value and appends tag and payload |
| Ztlv.PutUint32 | zipc/zipc_tlv.c:532-549 | appends what the same number as int64 would |
| Ztlv.PutTable | zipc/zipc_tlv.c:524-530 | appends the table tag and the count |
| Ztlv.PutString | zipc/zipc_tlv.c:477-492 | appends tag, length and bytes, or the nil tag for NULL |
| Ztlv.FetchType | zipc/zipc_tlv.c:366-374 | takes the tag, or zero at the end |
| Ztlv.FetchLen | zipc/zipc_tlv.c:494-504 | returns and advances as GetLen says, on any memory |
| Ztlv.FetchBool | zipc/zipc_tlv.c:382-403 | returns and advances as GetBool says |
| Ztlv.FetchInt | zipc/zipc_tlv.c:405-426 | returns and advances as GetInt says, for both integer tags |
| Ztlv.FetchInt64 | zipc/zipc_tlv.c:601-626 | returns and advances as GetInt64 says, for both integer tags |
| Ztlv.FetchUint32 | zipc/zipc_tlv.h:116-116 | returns and advances as GetUint32 says |
| Ztlv.FetchTable | zipc/zipc_tlv.c:518-522 | returns and advances as GetTable says |
| Ztlv.FetchString | zipc/zipc_tlv.c:428-433 | returns and advances as GetString says, also when the length cannot be read |
| Ztlv.FetchIgnore | zipc/zipc_tlv.c:435-460 | returns and advances as GetIgnore says, on any bytes in a grown buffer |
| TlvLaws.IntBack | zipc/zipc_tlv.c:405-425 | a put int is read back exactly by the int and the int64 getter |
| TlvLaws.LongBack | zipc/zipc_tlv.c:601-626 | a put long is read back exactly as int64, and modulo 2^32 as int |
| TlvLaws.Int64Back | zipc/zipc_tlv.c:601-643 | the same for ztlv_put_int64, across the choice of the tag |
| TlvLaws.Uint32Back | zipc/zipc_tlv.c:531-549 | put and get of uint32 is the identity on all 2^32 values |
| TlvLaws.SamePayload | zipc/zipc_tlv.c:628-643 | on int32 both tags carry the same payload, and the tag is that of int except for -2^31 |
| TlvWire.SmallValues | zipc/zipc_tlv.c:462-530 | the bytes of bools, of small numbers and counts with either integer tag, and of short strings, spelled out |
| TlvWire.LongerNumber | zipc/zipc_tlv.c:201-325 | longer numbers start with their lowest seven bits, marked |
| TlvWire.AtEnd | zipc/zipc_tlv.c:366-460 | at the end of the contents every getter fails and leaves the cursor |
| TlvWire.OtherTag | zipc/zipc_tlv.c:382-530 | behind a tag of another type every getter fails, with only the tag taken |
| TlvWire.NumberTag | zipc/zipc_tlv.c:382-626 | what the bool and integer getters make of their own tags, on any bytes |
| TlvWire.StringTag | zipc/zipc_tlv.c:428-433 | what the string getter makes of its tag: without a length an empty string, past the contents a failure there, and the wrapped sum where cursor plus length wraps |
| TlvLaws.StringBack | zipc/zipc_tlv.c:428-492 | a put string comes back as the slice that holds it |
| TlvLaws.RoundTrip | zipc/zipc_tlv.c:366-549 | any sequence of values, put anywhere in the contents, is read back by the getters of the same types, up to exactly where it ends |
| TlvLaws.FetchBounded | zipc/zipc_tlv.c:59-197 | on arbitrary bytes every get, ztlv_get_type and ztlv_get_ignore among them, depends on no byte behind len+1 and stays inside the block |
| TlvLaws.RunBounded | zipc/zipc_tlv.c:366-626 | over arbitrary bytes and any run of gets, which goes on after a get that fails, the cursor stays at most len+2 and no byte behind len+1 is read |
| TlvLaws.GrownStaysInside | zcrtlib/zbuf.c:86-103 | on a buffer that has grown every run of gets, failed ones included, stays inside its block, on any bytes |
| TlvLaws.SlackIsNeeded | zipc/zipc_tlv.c:160-180 | eight bytes of contents in a block of ten on which a get does read the second byte behind the contents |
| TlvLaws.SliceInside | zipc/zipc_tlv.c:428-433 | a returned slice lies in the contents if and only if the cursor sum does not wrap |
| TlvLaws.SliceCanWrap | zipc/zipc_tlv.c:428-433 | six bytes of contents from which a slice of almost 2^32 bytes is returned |
| TlvIgnore.IgnoreBool | zipc/zipc_tlv.c:435-460 | ztlv_get_ignore skips exactly one bool if and only if it ends the contents |
| TlvIgnore.IgnoreInt | zipc/zipc_tlv.c:435-460 | ztlv_get_ignore skips exactly one int if and only if the payload is one byte and, where that byte is the tag of an integer, no number can be read behind it |
| TlvIgnore.IgnoreString | zipc/zipc_tlv.c:435-460 | ztlv_get_ignore skips exactly one string if and only if it is empty, or has 17 bytes, which start with a number that leads to its end, or past the contents when these end there |
| TlvIgnore.IgnoreRefuses | zipc/zipc_tlv.c:435-460 | it refuses a long integer, a table and nil, and takes only the tag |
| Exchange.PutAll | zipc/zipc_tlv.c:462-549 | a sequence of puts appends the concatenated encodings |
| Exchange.FetchItems | zipc/zipc_tlv.c:366-504 | a sequence of gets returns what the reference run returns |
| Exchange.FetchRun | zipc/zipc_tlv.c:366-626 | any sequence of gets on a grown buffer, whatever its bytes are and whichever gets fail, returns what the reference run returns |
| Exchange.PutAndFetch | zipc/zipc_tlv.c:366-549 | on a live buffer, however often it is reallocated, the values put are fetched again and the cursor ends just before the suffix |
| ZArray.ZArrayList.Slots | zcrtlib/zarraylist.c:53-70 | the new capacity is never less than the old one or the length, and the old one where that was more than the length |
| ZArray.ZArrayList.SetLength | zcrtlib/zarraylist.c:53-70 | old elements stay, new ones are zero, and the capacity stays, or grows by the step or to the length, for every length whose capacity is a 32-bit number |
| ZArray.ZArrayList.Get | zcrtlib/zarraylist.c:80-87 | the slot of the index, or NULL outside the length |
| ZArray.ZArrayList.Increase | zcrtlib/zarraylist.c:89-94 | one more element, zero where its slot is new, and that slot; the others stay |
| TlvArray.ArrayBack | zipc/zipc_tlv.c:551-599 | an encoded array comes back with its length and all elements, for any element codec that round-trips and whatever the indices are |
| TlvArray.PutArray | zipc/zipc_tlv.c:582-599 | appends the encoding of the array with indices 1 to n, up to and with the first element whose put returns false |
| TlvArray.GetArrayInto | zipc/zipc_tlv.c:551-580 | fills the list with exactly what the reference returns, on any bytes in a grown buffer |
| TlvArray.ArrayBounded | zipc/zipc_tlv.c:551-580 | on arbitrary bytes ztlv_get_array reads nothing behind len+1, for any element getter that does not |
| TlvArray.ArrayIsRead | zipc/zipc_tlv.c:551-580 | on any bytes an array is returned only if every index and every element can be read, and then it is these elements, as many as the table says |
| TlvArray.BoolRoundTrips | zipc/zipc_tlv.h:125-156 | the element codec of the bool array macros round-trips on slots of 0 and 1 |
| TlvArray.BoolSlotBack | zipc/zipc_tlv.h:125-156 | a slot of that codec comes back unchanged if and only if it was 0 or 1 |
| TlvArray.BoolBounded | zipc/zipc_tlv.h:125-156 | its getter reads nothing behind len+1 |
| TlvArray.Uint32RoundTrips | zipc/zipc_tlv.h:125-162 | that of the uint32 macros round-trips on all words |
| TlvArray.IntRoundTrips | zipc/zipc_tlv.h:125-159 | that of the int macros round-trips on every narrowed integer type, because narrowing keeps its values |
| TlvArray.Uint32Bounded | zipc/zipc_tlv.h:125-162 | the element getter of the uint32 macros reads nothing behind len+1 |
| TlvArray.IntBounded | zipc/zipc_tlv.h:125-159 | nor do those of the int macros |
| ZipcHeader.ShortTextInside | zipc/zipc_parse.c:74-93 | on arbitrary bytes a short string lies in the contents, so header keys are compared inside them although cursor sums may wrap |
| ZipcHeader.EntryBack | zipc/zipc_parse.c:74-93 | one encoded entry of a known key sets its field and nothing else |
| ZipcHeader.HeaderBack | zipc/zipc_parse.c:66-95 | any header of known keys, in any order and with repeats, parses to the fold of its entries over zeros |
| ZipcHeader.FoldIsLast | zipc/zipc_parse.c:66-95 | in that fold the last entry of each key counts, and an absent key gives zero |
| ZipcHeader.OtherKeyIgnored | zipc/zipc_parse.c:74-93 | on any bytes an entry whose key is none of the three, in bytes, succeeds and changes no field |
| ZipcHeader.EntrySets | zipc/zipc_parse.c:74-93 | on any bytes an entry sets the field of its key to what it carries, and no other |
| ZipcHeader.EntryFails | zipc/zipc_parse.c:74-93 | on any bytes an entry fails if and only if it has no key, or its key is one of the three and no value of its type follows |
| ZipcHeader.HeaderFields | zipc/zipc_parse.c:73-94 | on any bytes and for any entries each field is what the last entry of its key carries, entries of other keys do not count, and the loop succeeds if and only if all entries are good |
| ZipcHeader.SentHeaderBack | zipc/zipc_parse.c:418-427 | zipc_encode_common_hdr is undone by the parser for every serial number |
| ZipcHeader.ReplyHeaderBack | zipc/zipc_parse.c:349-356 | zipc_parse_put_reply_commonhdr is undone by the parser for every serial number |
| ZipcMsg.ParseCommonHdr | zipc/zipc_parse.c:66-95 | the parsing loop returns, fills in and advances as the reference says, on any bytes in a grown buffer; the fields are those that HeaderFields names, over zeros |
| ZipcHeader.HeaderBounded | zipc/zipc_parse.c:66-95 | on arbitrary bytes, with any count, the header parser reads nothing behind len+1, although it goes on after ztlv_get_ignore has failed |
| ZipcHeader.EntryBounded | zipc/zipc_parse.c:74-93 | the same for one round of its loop |
| ZipcMsg.FetchValue | zipc/zipc_parse.c:77-92 | one round of the loop behind the key |
| ZipcBody.NameBack | zipc/zipc_parse.c:123-136 | a string is taken for a name if and only if it has fewer than 64 bytes, and then as the slice that holds it |
| ZipcBody.RequestBack | zipc/zipc_parse.c:113-139 | of a whole request body both names are returned, with the cursor behind them, if and only if the count is at least 3 and both have fewer than 64 bytes |
| ZipcBody.BodyIsRead | zipc/zipc_parse.c:113-139 | on any bytes names are returned only behind a count of at least 3, each behind a number that can be read, and shorter than 64 bytes |
| ZipcBody.TakenNameIsInside | zipc/zipc_parse.c:123-136 | a name that is taken lies in the contents, on arbitrary bytes |
| ZipcBody.TakenNameIsExact | zipc/zipc_parse.c:113-159 | a name that is taken finds exactly the component registered under that very name, because the lookup does not cut it |
| ZipcBody.ParseBodyInfo | zipc/zipc_parse.c:113-139 | returns, advances and fails as the reference says, on any bytes in a grown buffer |
| ZipcBody.BodyBounded | zipc/zipc_parse.c:113-139 | on arbitrary bytes it reads nothing behind len+1 |
| ZipcMsg.InitBuf | zipc/zipc_parse.c:337-345 | appends the head in network order and rewinds the cursor |
| ZipcMsg.EncodeCommonHdr | zipc/zipc_parse.c:418-427 | the puts append the three entries |
| ZipcMsg.PutReplyCommonHdr | zipc/zipc_parse.c:349-356 | the puts append the two entries |
| ZipcMsg.PatchSize | zipc/zipc_parse.c:451-456 | writes the size in network order at the front of the block and nothing else |
| ZipcMsg.EncodeEvent | zipc/zipc_parse.c:429-458 | the whole contents afterwards, for any contents before and any encoder, with the error codes |
| ZipcMsg.EncodeFresh | zipc/zipc_parse.c:429-458 | from a cleared buffer the result is one event frame for every event id and encoder output |
| ZipcFrame.HeadBack | zipc/zipc_parse.c:57-64 | the head has the signature, the type and exactly the number of bytes behind it |
| ZipcFrame.HeaderThenBody | zipc/zipc_parse.c:418-458 | of a payload the header parser gives the fold of any header's entries, the getters any body's values, and what follows is the data |
| ZipcFrame.FrameBack | zipc/zipc_parse.c:429-458 | the frame decodes to req false, noti true, count 2, index 1, the event id, index 2, and then the encoder's bytes to the end |
| ZipcMsg.SizeReachesFrame | zipc/zipc_parse.c:429-458 | for any contents before, the appended frame ends up with a right head if and only if there were none, or a single byte and a payload of 0x01010100 bytes |
| EventOrder.InsertSorts | zcrtlib/zevent.c:156-180 | registering keeps a list the stable sort, by descending priority, of the log of registrations |
| EventOrder.RemoveSorts | zcrtlib/zevent.c:195-216 | unregistering keeps it the stable sort of the log without the earliest matching registration of the highest priority |
| EventOrder.RemoveTakesFirst | zcrtlib/zevent.c:195-216 | if all listeners differ from the triple in fn, p1 or p2 the list stays; otherwise the first one that has all three goes, and no other |
| EventOrder.StableSortIs | zcrtlib/zevent.c:139-183 | the stable sort is the one list with descending priorities that keeps, for each priority, the order of the log |
| EventOrder.RegisterUnregister | zcrtlib/zevent.c:139-219 | registering a triple that is not there and unregistering it restores the list exactly |
| EventRuns.Victim | zcrtlib/zevent.c:195-216 | the registration that goes, if there is a match |
| EventRuns.RunSorts | zcrtlib/zevent.c:139-219 | after every run each list is the stable sort of its surviving registrations |
| ZEvent.EventMng.TakeFree | zcrtlib/zevent.c:54-60 | the first lock section takes the head of the free list and keeps the shape of all chains |
| ZEvent.EventMng.MallocCb | zcrtlib/zevent.c:50-78 | a node that nobody else has, filled in, from the free list if there is one |
| ZEvent.EventMng.FindPlace | zcrtlib/zevent.c:163-169 | the loop finds the place behind every listener of no lower priority |
| ZEvent.EventMng.LinkCb | zcrtlib/zevent.c:155-181 | the second lock section puts the held node where the reference inserts, and keeps all other chains and held nodes |
| ZEvent.EventMng.FindMatch | zcrtlib/zevent.c:196-203 | the loop finds the first match of the triple, or there is none |
| ZEvent.EventMng.Unlink | zcrtlib/zevent.c:204-213 | takes exactly the match out of its chain |
| ZEvent.EventMng.FreeCb | zcrtlib/zevent.c:80-86 | puts the node in front of the free list; freesize stays its length |
| ZEvent.LinkFront | zcrtlib/zevent.c:156-175 | linking at the head keeps all chains acyclic, disjoint and complete, and the lists sorted |
| ZEvent.LinkAfter | zcrtlib/zevent.c:176-180 | the same for linking behind a predecessor |
| ZEvent.UnlinkFront | zcrtlib/zevent.c:209-212 | the same for unlinking the head |
| ZEvent.UnlinkAfter | zcrtlib/zevent.c:205-208 | the same for unlinking behind a predecessor |
| ZEvent.FreeFront | zcrtlib/zevent.c:80-86 | the same for freeing a node |
| ZEventApi.RegisterEx | zcrtlib/zevent.c:139-183 | error codes, and otherwise exactly the reference insertion into the event's list; no node is lost, and none is allocated while there is a free one |
| ZEventApi.Unregister | zcrtlib/zevent.c:185-219 | of the event's listeners the first one with that fn, p1 and p2 goes and no other, of no other event; nothing changes without one or for refused arguments; and when the assertion holds |
| ZEventApi.Run | zcrtlib/zevent.c:139-219 | the code, run on any operations, leaves each list the stable sort of what is still registered |
| EventSend.OriginalsCalledOnce | zcrtlib/zevent.c:225-250 | however callbacks register, the listeners there at the start that match are called exactly once each and in list order |
| EventSend.CalledIff | zcrtlib/zevent.c:225-250 | a listener is called if and only if it matches and was there, or was registered by some call with a priority no higher than the one called |
| EventSend.KindsCalled | zcrtlib/zevent.c:238-245 | without callbacks a send of kind All calls the whole list in order, and any send exactly the listeners whose kind is that of the send or All, and all where the send is for All |
| EventSend.KindsMatched | zcrtlib/zevent.c:238-245 | whatever callbacks do, no listener of another kind is called, and none that was there and matches is left out |
| ZEventSend.InsertTail | zcrtlib/zevent.c:163-180 | where the listener under the cursor, and what is behind it, goes when another is registered |
| ZEventSend.Callback | zcrtlib/zevent.c:240-243 | a callback's operations leave its node in the list and add behind it only what the reference says |
| ZEventSend.StepUnregister | zcrtlib/zevent.c:185-219 | unregistering from another event leaves the walk where it is, and the assertion on lastEvtid holds |
| ZEventSend.SendEx | zcrtlib/zevent.c:225-250 | the walk makes exactly the reference's calls while callbacks change the lists, and leaves the lists those operations leave; the listeners called are of matching kinds, and all of these are called |
| ZEventSend.RunRequests | zcrtlib/zevent.c:139-250 | after any run of registering, unregistering and sending, with callbacks that do either, each list is the stable sort of what is left of everything that was done |
| ZEventSend.UnregisterAfter | zcrtlib/zevent.c:185-250 | after any such run the assertion of zcrt_event_unregister holds if and only if the event is not event 0 |
| ZEventThreads.Step | zcrtlib/zevent.c:50-219 | every step of every thread moves that thread as the reference says, does to the lists what that call's lock section does, and keeps every node allocated |
| ZEventThreads.RunKeepsOrder | zcrtlib/zevent.c:139-219 | in every run of the reference each thread's calls are, in order, those that have had their lock section, followed by the registration it is in |
| ZEventThreads.Interleave | zcrtlib/zevent.c:50-219 | in every schedule of any number of threads the code makes a run of the reference; every node ever allocated is at one place of one list or held by one thread, and the lists are those of the calls in the order of their lock sections |
| ZEventThreads.Delete | zcrtlib/zevent.c:87-132 | when no node is in flight, every node there is is freed exactly once and none is touched after it |
| ZEventThreads.Shutdown | zcrtlib/zevent.c:109-132 | the same for what any threads leave behind, once all of them are outside |
| ZEventThreads.Lifetime | zcrtlib/zevent.c:50-219 | from creation to deletion, if the schedule leaves no thread in a call, the nodes ever allocated are freed, each once |
| ChainsFree.FreeChain | zcrtlib/zevent.c:87-96 | walking and freeing a chain reads each successor before its node is freed |
| KernelMutex.RunKeepsInv | zcrtlib/zcrt_os_kernal.c:106-160 | what every step of every interleaving keeps |
| KernelMutex.MutualExclusion | zcrtlib/zcrt_os_kernal.c:127-160 | in every reachable state at most one thread holds the mutex |
| KernelMutex.ReentryIsHeld | zcrtlib/zcrt_os_kernal.c:132-135 | a thread takes the re-entrant path only while it holds the mutex |
| KernelMutex.CountFollowsDepth | zcrtlib/zcrt_os_kernal.c:132-149 | recurse_count is the holder's nesting depth minus one, so only the outermost unlock raises the semaphore |
| KernelMutex.CountIsPrivate | zcrtlib/zcrt_os_kernal.c:132-149 | only the one holder reads or writes recurse_count |
| KernelMutex.RunAccounts | zcrtlib/zcrt_os_kernal.c:127-160 | over every run a thread is as much deeper as it has acquired the mutex more often than released it, counted from the schedule alone; the semaphore and recurse_count follow likewise |
| KernelMutex.RunOwner | zcrtlib/zcrt_os_kernal.c:132-151 | owner holds what the last write of the schedule put there |
| KernelMutex.UnlockFrees | zcrtlib/zcrt_os_kernal.c:142-153 | the unlock of a thread that holds at depth one gets through, whatever the others do between its steps; then the semaphore is up, nobody holds, and whoever waits can have the mutex |
| KernelMutex.NestedLockReturns | zcrtlib/zcrt_os_kernal.c:127-139 | a nested lock of the holder can return if and only if owner still names the holder; if not, no continuation lets it or any other thread through |
| KernelMutex.OwnerIsNotHolder | zcrtlib/zcrt_os_kernal.c:137-138 | a run after which owner names a thread that does not hold the mutex |
| KernelMutex.Mutex.StartLock | zcrtlib/zcrt_os_kernal.c:129-132 | the read of owner is the protocol's first step |
| KernelMutex.Mutex.TakeSem | zcrtlib/zcrt_os_kernal.c:138-138 | down lowers the semaphore by one, makes the thread one deeper, and is the step that makes it the holder |
| KernelMutex.Mutex.GiveSem | zcrtlib/zcrt_os_kernal.c:152-152 | up raises the semaphore by one, makes the thread one less deep and no other, and is the step that ends holding |
| KernelMutex.Mutex.TryTake | zcrtlib/zcrt_os_kernal.c:155-160 | trylock succeeds if and only if the semaphore is up; only then it lowers it and the thread is one deeper; owner is not written |
| KernelMutex.Mutex.Interleave | zcrtlib/zcrt_os_kernal.c:106-160 | the code, run access by access in any schedule, is a run of the protocol |
| AssocList.FindInBucket | zcrtlib/zhash.c:72-81 | looking in one bucket is looking in the whole list, when equal entries share a bucket |
| AssocList.DropInBucket | zcrtlib/zhash.c:100-130 | removing from one bucket is removing from the whole list, and leaves the other buckets alone |
| AssocList.RemoveKeepsOthers | zcrtlib/zhash.c:100-130 | removing does not change what is found under other keys |
| AssocList.WithinIsSame | zcrtlib/zhash.c:72-144 | when equal entries share a bucket, comparing only inside one bucket finds and removes what comparing in the whole list does |
| HashRuns.RunFinds | zcrtlib/zhash.c:82-144 | after every run of adds and removes a lookup returns the newest add of its class that no remove has taken back, a stack for each class |
| HashRuns.RunCounts | zcrtlib/zhash.c:82-130 | and the table holds as many entries as were added and not taken back |
| HashRuns.Run | zcrtlib/zhash.c:31-130 | the code does so, on any operations, and counts them modulo 2^32 |
| ZHash.Hash.FirstEqual | zcrtlib/zhash.c:138-142 | the loops stop at the first equal entry of the chain |
| ZHash.Hash.Lookup | zcrtlib/zhash.c:132-144 | returns the newest entry of the whole table that is equal and in the same bucket, which is the newest equal one when equal entries share a bucket |
| ZHash.Hash.Add | zcrtlib/zhash.c:82-98 | the table becomes the entry followed by the old list |
| ZHash.Hash.Remove | zcrtlib/zhash.c:100-130 | exactly that entry goes, and its node is freed |
| ZHash.Hash.Enumerate | zcrtlib/zhash.c:146-163 | visits bucket by bucket, and every entry exactly as often as it is there |
| ZHash.Hash.Delete | zcrtlib/zhash.c:58-67 | every node is freed exactly once |
| ZHash.CountedIs | zcrtlib/zhash.c:96-127 | count is the number of entries modulo 2^32 |
| ZHash.FlatIsLog | zcrtlib/zhash.c:146-163 | the buckets together hold exactly the entries |
| ZHash.HashNew | zcrtlib/zhash.c:31-47 | NULL without both callbacks, otherwise an empty table |
| ZHash.HashAdd | zcrtlib/zhash.c:82-98 | with the tests for NULL |
| ZHash.HashRemove | zcrtlib/zhash.c:100-130 | with the tests for NULL |
| ZHash.HashLookup | zcrtlib/zhash.c:132-144 | with the tests for NULL |
| ComponentNames.EqualNamesEqualKeys | zipc/zipc_parse.c:44-55 | names that strcmp calls equal have the same hash key, whatever follows the NUL |
| ComponentNames.KeyIsSum | zipc/zipc_parse.c:44-50 | the key of a name is the sum of its characters but the first, as signed chars, modulo 2^32 |
| ComponentNames.ComponentHashKey | zipc/zipc_parse.c:44-50 | the loop over a terminated name adds up that key |
| ComponentNames.SetLName | zipc/zipc_parse.c:276-280 | leaves the first 63 bytes of the name and zeros |
| ComponentNames.PaddedHolds | zipc/zipc_parse.c:276-298 | the stored name is the first 63 characters of the given one, terminated, however long it is |
| ComponentRegistry.CallbacksFit | zipc/zipc_parse.c:44-55 | the callbacks are an equivalence that implies equal bucket |
| ComponentRegistry.RunKeepsDistinct | zipc/zipc_server.c:30-57 | in every run of registers and unregisters stored names stay pairwise distinct |
| ComponentRegistry.UnregisterIs | zipc/zipc_server.c:48-57 | unregistering takes out exactly the component of that name; then nothing is found under it, and under other names what was found before |
| ComponentRegistry.RunHolds | zipc/zipc_server.c:30-57 | after every run what is registered is what holds its name |
| ComponentRegistry.HolderStands | zipc/zipc_server.c:30-57 | that is: what was registered when nobody held the name, and was not unregistered since |
| ComponentRegistry.Run | zipc/zipc_server.c:30-57 | the code on any run leaves exactly these |
| ComponentRegistry.LookupIs | zipc/zipc_parse.c:282-291 | a lookup by any name finds a component if and only if it is registered and its stored name is the name cut at 63 |
| ComponentRegistry.ComponentNew | zipc/zipc_parse.c:293-304 | of any C string the first 63 characters and zeros are stored |
| ComponentRegistry.FoundAgain | zipc/zipc_parse.c:282-304 | a registered component is found again by the name it was made with, of any length |
| ComponentRegistry.CreateAndFind | zipc/zipc_parse.c:282-304 | the code that makes a component, registers it and looks its name up finds it, or the one with the same first 63 characters that was there |
| ComponentRegistry.LongNamesCollide | zipc/zipc_parse.c:276-335 | whatever is registered, a component is refused if and only if the name of a registered one agrees with its name in 63 characters |
| ComponentRegistry.LookupComp | zipc/zipc_parse.c:282-291 | the code finds exactly that component |
| ComponentRegistry.RegisterComp | zipc/zipc_server.c:30-46 | error codes; adds the component exactly when its name is not there; names stay distinct, whatever follows the NUL |
| ComponentRegistry.UnregisterComp | zipc/zipc_server.c:48-57 | exactly the component of that name goes, and every other name finds what it found before |
| ComponentTree.ComponentDelete | zipc/zipc_parse.c:307-320 | on any finite tree it ends and frees every component, node, index and table exactly once, touching nothing that was freed, and nothing of the tree is left |
| ComponentTree.HashEnumerate | zcrtlib/zhash.c:146-163 | the walk that deletes the components below never touches what the callback freed |
| ComponentTree.HashDelete | zcrtlib/zhash.c:49-70 | frees the nodes of all buckets, the index and the table, each once |
| ComponentTree.TreeFrame | zipc/zipc_parse.c:307-320 | deleting other objects leaves a tree as it is |
| ZcrtMem.Ledger.Malloc | zcrtlib/zcrt_mem_kernal.c:91-103 | a new recorded block of the right size, for size 0 one more record of the shared address; NULL, with nothing changed, if and only if one of the two calls of kmalloc fails |
| ZcrtMem.Ledger.Kfree | zcrtlib/zcrt_mem_kernal.c:105-117 | the block goes, except at the shared address |
| ZcrtMem.Ledger.ZcrtFree | zcrtlib/zcrt_mem_kernal.c:105-117 | exactly that block and its record go, or one record of the shared address; an unknown pointer changes nothing |
| ZcrtMem.Ledger.Realloc | zcrtlib/zcrt_mem_kernal.c:119-157 | same size gives the same pointer, failure changes nothing and comes if and only if kmalloc fails, success keeps the old bytes as a prefix and all other blocks |
| ZcrtMem.Ledger.MemblockAdd | zcrtlib/zcrt_mem_kernal.c:48-62 | the block gets its record, or nothing changes |
| ZcrtMem.Ledger.MemblockDel | zcrtlib/zcrt_mem_kernal.c:64-70 | the record goes from the list and is freed |
| ZcrtMem.Ledger.MemblockGet | zcrtlib/zcrt_mem_kernal.c:72-88 | finds a record of the pointer if and only if there is one |
| ZcrtMem.OneRecordEach | zcrtlib/zcrt_mem_kernal.c:31-88 | a pointer other than the address of size 0 is live if and only if it has a record; it has only one, of its size |
| ZcrtMem.SharedOnlyByZeros | zcrtlib/zcrt_mem_kernal.c:48-103 | no two records share a pointer if and only if at most one allocation of size 0 is out |
| ZcrtMem.Run | zcrtlib/zcrt_mem_kernal.c:48-157 | of every run, with kmalloc failing wherever it is told to: what the calls return, and live are exactly the blocks of the calls that succeeded and were not taken back, in their sizes, and as many allocations of size 0 |

## Left out

- Sockets, logging, time, sleeping, threads as such, interrupt locks, module start-up and the Windows and Linux system layers.
- `zcrtlib/zschedule.c`, `zcrtlib/ztimer.c`, `zcrtlib/zlog.c`, `zcrtlib/zmodule.c`, `zcrtlib/zstr.c` (but for comparing header keys).
- Real and double values of the codec (`zipc/zipc_tlv.c:339-364`): byte swapping of floating point numbers.
- `zipc_parse_request`, `zipc_parse_app_link` and the pool of buffers (`zipc/zipc_parse.c:97-111`, `zipc/zipc_parse.c:141-274`, `zipc/zipc_parse.c:375-416`): they only combine the operations modelled here.
- Allocation failure outside the kernel allocator: buffers, arrays, the hash table and events do not handle it.
- The macros for arrays of int64 and of strings (`zipc/zipc_tlv.h:164-168`): they name functions and a type that do not exist.
- Lengths of 2^31-1 and more, but for `ZBuffer.GrowthWorks`: the doubling loop does not end there.
- A NULL buffer, and a buffer without a block, which is modelled as an empty block.
- Lists and buckets refer to nodes by addresses into a map instead of pointers into the heap; `evtlist` is a sequence. The records of the allocator are a sequence instead of a ring of list heads. The id of a registration exists in the model only.
- Arrays count in elements; that the number of bytes of an array could wrap is not modelled.
- What is in the common header after a failed parse is what had been read until then, as in the code; callers do not use it.
- Progress of the mutex beyond nested locking: contention overwrites `owner`, so it cannot be promised.
- Sending from within a callback, and callbacks that never stop registering behind themselves: what callbacks do is a finite script.
- ZcrtMem.Ledger.Realloc: does not model reallocating to a smaller size that is not 0; the code copies the whole old block, which a smaller one cannot hold. Runs leave such calls out. Buffers and array lists only ever ask for more.
- ZEventSend.SendEx: callbacks that unregister from the event being sent are excluded, in `ZEventSend.Callback` and in runs with sends too, as the assertion of zcrt_event_unregister excludes them.
- ZHash.HashNew: a table of size 0 is excluded (and so in the constructor); adding, removing and looking up would divide by zero.
- ZArray.ZArrayList.SetLength: does not model capacities of 2^32 and more, where adding the step would wrap.
- The assertion of `zarray_setlength` that lengths are below 0xfffff: the kernel build only reports it, and the model goes on.
- TlvArray.GetArrayInto: does not say which elements are in the list after a failure.
