# Exalt core, modelled in Dafny

Exalt compresses XML documents in three stages: an XML event model turns SAX
events into a stream of symbols, a Kieffer–Yang grammar transform encodes that
stream as a growing context-free grammar, and an adaptive arithmetic coder
writes the grammar symbols out. This project models the parts of that pipeline
that are sequential and integer-only, together with the containers and string
helpers they are built on, and the two Python helper scripts shipped under
`tools/`.

Each core source file is modelled by one or more Dafny modules, listed
below. Code that is pure becomes functions; code that changes state step by
step becomes methods with loops and invariants, or classes whose methods are
tied to a value-level description of their state by
`State() == Op(old(State()))`, and the properties the source promises are
proved about those functions. Failures (`FATAL`, exceptions, error return
codes) are modelled as `Result`/`Option` values or error constructors
instead of aborts, except those listed under "Left out".

| module | file | source |
|---|---|---|
| `Wrappers` | wrappers.dfy | `Option` and result helpers shared by the other modules |
| `Fibonacci` | fibonacci.dfy | src/fibonacci.cpp |
| `XmlChar` | xmlchar.dfy | src/xmlchar.cpp |
| `Queues` | queue.dfy | src/queue.h |
| `Stacks` | stack.dfy | src/stack.h |
| `Lists` | list.dfy | src/list.h |
| `HashTables` | hashtable.dfy | src/hashtable.h |
| `Funnels` | funnel.dfy | src/funneldevice.cpp |
| `TextCodecs` | textcodec.dfy | src/textcodec.cpp |
| `CommandLine` | commandline.dfy | src/main.cpp |
| `FibTool` | fibtool.dfy | tools/fib.py |
| `Summary` | summary.dfy | tools/summary.py |
| `Contexts`, `ContextObject` | context.dfy, contextobject.dfy | src/context.cpp |
| `ArithCoding`, `ArithCodecObject` | arithcoding.dfy, arithcodec.dfy | src/arithcodec.cpp |
| `ArithStream`, `ArithReadStream`, `ArithMessages` | arithstream.dfy, arithreadstream.dfy, arithmessage.dfy | src/arithcodec.cpp (a first message encoded, written and decoded back) |
| `ElementModels` | elementmodel.dfy | src/elementmodel.cpp |
| `ElementModelerObject` | elementmodeler.dfy | src/elementmodel.cpp |
| `KYExpansion`, `KYGrammars`, `KYInput` | kyexpansion.dfy, kygrammar.dfy, kyinput.dfy | src/kygrammar.cpp (value level: rules, expansion, reductions, input queue) |
| `KYGrammarObject` | kygrammarobject.dfy | src/kygrammar.cpp (the `KYGrammar` class) |
| `MoffatTrees` | moffattree.dfy | src/context.cpp, src/context.h (the cumulative-frequency tree of Moffat) |
| `KYDigramIndex` | kydigramindex.dfy | src/kygrammar.cpp (the digram index DIGRAM_ADD, DIGRAM_REMOVE and findDigram use) |
| `KYDigramTrace` | kydigramtrace.dfy | src/kygrammar.cpp (a run on which the index and the transform part) |
| `XmlModelBase` | xmlmodelbase.dfy | src/xmlsimplemodel.cpp (CHANGE_STATE, the string buffer, the streaming Fibonacci reader, shared by both models) |
| `XmlSimpleEncoding` | xmlsimpleencoder.dfy | src/xmlsimplemodel.cpp (manageEvent) |
| `XmlSimpleDecoding` | xmlsimpledecoder.dfy | src/xmlsimplemodel.cpp (receiveData) |
| `XmlSimpleRoundTrip` | xmlsimpleroundtrip.dfy | src/xmlsimplemodel.cpp (what receiveData makes of manageEvent's output) |
| `XmlSimpleModelObject` | xmlsimplemodelobject.dfy | src/xmlsimplemodel.cpp (the `XmlSimpleModel` class) |
| `XmlAdaptiveEncoding` | xmladaptiveencoder.dfy | src/xmladaptivemodel.cpp (manageEvent) |
| `XmlAdaptiveDecoding` | xmladaptivedecoder.dfy | src/xmladaptivemodel.cpp (receiveData) |
| `XmlAdaptiveAgreement` | xmladaptiveagreement.dfy | src/xmladaptivemodel.cpp (what receiveData makes of manageEvent's output) |
| `XmlAdaptiveNack` | xmladaptivenack.dfy | src/xmladaptivemodel.cpp (the clue edges sent after NACK) |

## Model

| member | source | states |
|---|---|---|
| Fibonacci.TableIsFib | src/fibonacci.cpp:51-61 | every entry of the 44-entry order-2 table is the Fibonacci number Fib(i) of the recurrence |
| Fibonacci.TableEntry | src/fibonacci.cpp:51-61 | reading the table at i gives Fib(i) |
| Fibonacci.FibGrows | src/fibonacci.cpp:51-61 | the table is non-decreasing, which the greedy loop relies on |
| Fibonacci.ZeckIsRepresentation | src/fibonacci.cpp:82-96 | the greedy choice from the largest Fibonacci number down picks numbers that sum to n with no two adjacent |
| Fibonacci.ZeckendorfDigits | src/fibonacci.cpp:82-96 | below Fib(k), with leading zeros dropped, the digits sum to n, have no two adjacent ones and end in a one |
| Fibonacci.DigitsAreZeckendorf | src/fibonacci.cpp:75-103 | for 1 <= n below the table limit the digits are a Zeckendorf code of at most 44 digits, ending in a one |
| Fibonacci.Encode | src/fibonacci.cpp:75-103 | encode returns the Zeckendorf digits of n, least significant first, with one extra 1 on top, so the code ends in "11", and fits in 45 bits |
| Fibonacci.Decode | src/fibonacci.cpp:115-143 | decode adds Fib(i) for each one bit from the least significant upward and stops at the first two adjacent ones |
| Fibonacci.DecodeOfVal | src/fibonacci.cpp:121-140 | decoding a number is decoding its bit sequence, least significant first |
| Fibonacci.RoundTrip | src/fibonacci.cpp:75-143 | decode(encode(n)) == n for every 1 <= n the table can represent |
| Fibonacci.EncodeZero | src/fibonacci.cpp:69-96 | zero is outside the domain: encode(0) is the bare terminator 1, which decodes to 1 |
| Fibonacci.EndsInOne | src/fibonacci.cpp:96-100 | the extra top bit makes every code at least 1 |
| Fibonacci.EncodeToBuffer | src/fibonacci.cpp:160-211 | the buffer receives the code bits least significant first, each byte filled from its top bit, the last partial byte left-aligned with zeros, then zero bytes up to a whole number of items; the rest of the buffer is unchanged and the result is bytes written / itemSize |
| Fibonacci.RoundUpIsMultiple | src/fibonacci.cpp:203-210 | the padding loop stops at the least multiple of itemSize not below the bytes written |
| Fibonacci.DecodeFromBuffer | src/fibonacci.cpp:229-277 | decodeFromBuffer as written: bytes are read from their top bit, bits are shifted in at the bottom (reversing their order), and nrItems is the bytes consumed up to the second consecutive 1, rounded up to whole items |
| Fibonacci.AsWrittenMisreadsTwo | src/fibonacci.cpp:169-200 | encodeToBuffer(2) writes the byte 0x60 and decodeFromBuffer reads it back as 1, while the corrected reader returns 2 (with src/fibonacci.cpp:245-271) |
| Fibonacci.DecodeFromBufferFixed | src/xmlsimplemodel.cpp:1210-1241 | the corrected reader, the streaming decoder of the XML model: a right shift per bit with the new bit entering at bit 63 and a final shift by 64 minus the bits read |
| Fibonacci.FixedReadsTwo | src/xmlsimplemodel.cpp:1210-1241 | the corrected reader returns 2 for the byte 0x60 |
| Fibonacci.BufferRoundTrip | src/fibonacci.cpp:160-211 | whatever follows the written items, the corrected reader returns the number and the item count that encodeToBuffer returned |
| Fibonacci.EncodedItems | src/fibonacci.cpp:203-264 | the item count derived from the stop bit equals the one encodeToBuffer returned |
| XmlChar.Length | src/xmlchar.cpp:30-40 | the length of a terminated string is the index of its first 0 |
| XmlChar.StrLen | src/xmlchar.cpp:30-40 | xmlchar_strlen(null) is 0; otherwise it returns the index of the first 0 |
| XmlChar.CopyAll | src/xmlchar.cpp:46-72 | the copy loop writes the characters of src from position j onwards, returns how many, and leaves the rest of dest as it was |
| XmlChar.CopyAtMost | src/xmlchar.cpp:76-110 | the bounded copy loop writes the first min(n, length) characters of src from position j onwards and leaves the rest of dest as it was (with src/xmlchar.cpp:148-181) |
| XmlChar.StrCpy | src/xmlchar.cpp:46-72 | strcpy/cstrcpy copy src with its terminator to the front of dest and return dest, so dest then holds the same string as src |
| XmlChar.StrNCpy | src/xmlchar.cpp:76-110 | strncpy/cstrncpy copy min(n, length) characters and write a terminator only when fewer than n were copied; then dest holds src |
| XmlChar.StrCat | src/xmlchar.cpp:114-145 | strcat/cstrcat write src with its terminator from dest's first 0, so dest holds the concatenation |
| XmlChar.StrNCat | src/xmlchar.cpp:148-181 | strncat/cstrncat append at most n characters and terminate only when fewer than n were copied |
| XmlChar.Compare | src/xmlchar.cpp:185-228 | the comparison of two contents returns only -1, 0 or 1 |
| XmlChar.CompareZeroIff | src/xmlchar.cpp:185-228 | the comparison is 0 exactly when the contents are equal |
| XmlChar.CompareAntisymmetric | src/xmlchar.cpp:185-228 | compare(a, b) == -compare(b, a) |
| XmlChar.CompareTransitive | src/xmlchar.cpp:185-228 | the order is transitive |
| XmlChar.StrCmp | src/xmlchar.cpp:185-228 | strcmp/cstrcmp: null sorts below non-null, two nulls are equal, otherwise the contents are compared in lexicographic order (with src/xmlchar.cpp:280-323) |
| XmlChar.NCompareAsWrittenZeroIff | src/xmlchar.cpp:231-277 | strncmp as written returns 0 exactly when both strings continue past n with equal first n characters, or both are equal and end within n |
| XmlChar.NCompareAsWrittenDiffers | src/xmlchar.cpp:249-276 | "a" against "ab" with n = 1 gives -1 as written, while the first n characters agree |
| XmlChar.NCompareAsWrittenAgrees | src/xmlchar.cpp:231-277 | whenever not exactly one string ends at index n, the as-written result agrees with the comparison of the first n characters |
| XmlChar.StrNCmp | src/xmlchar.cpp:231-277 | strncmp/cstrncmp as written, null cases as for strcmp (with src/xmlchar.cpp:326-372) |
| XmlChar.NCompareZeroIff | src/xmlchar.cpp:231-277 | the corrected comparison is 0 exactly when the first n characters agree |
| XmlChar.NCompareLong | src/xmlchar.cpp:231-277 | when both strings end within n, the corrected comparison is the full comparison |
| XmlChar.StrNCmpBounded | src/xmlchar.cpp:231-277 | the corrected strncmp compares the first n characters, null cases as for strcmp |
| Queues.Queue.constructor | src/queue.h:58 | a new queue is empty with count 0 and auto-delete off (with src/queue.h:202-206) |
| Queues.Queue.Count | src/collection.h:60 | count() is the number of queued items |
| Queues.Queue.IsEmpty | src/collection.h:68 | isEmpty() holds exactly when nothing is queued |
| Queues.Queue.SetAutoDelete | src/collection.h:79 | only the auto-delete flag changes |
| Queues.Queue.First | src/queue.h:76-84 | first() returns the head's data without removing it, or null when empty |
| Queues.Queue.Last | src/queue.h:94-102 | last() returns the tail's data without removing it, or null when empty |
| Queues.Queue.Enqueue | src/queue.h:111-128 | the item goes to the tail and count grows by one |
| Queues.Queue.Dequeue | src/queue.h:137-160 | dequeue removes and returns the head and decrements count; on an empty queue it returns null and changes nothing |
| Queues.Queue.Clear | src/queue.h:171-189 | clear empties the queue and sets count to 0 |
| Queues.DrainInOrder | src/queue.h:111-160 | enqueuing a sequence and dequeuing until empty gives the items back in enqueue order |
| Stacks.Stack.constructor | src/stack.h:59 | a new stack is empty with count 0 and auto-delete off (with src/stack.h:176-179) |
| Stacks.Stack.Count | src/collection.h:60 | count() is the number of stacked items |
| Stacks.Stack.IsEmpty | src/collection.h:68 | isEmpty() holds exactly when nothing is stacked |
| Stacks.Stack.SetAutoDelete | src/collection.h:79 | only the auto-delete flag changes |
| Stacks.Stack.Top | src/stack.h:77-85 | top() returns the most recently pushed item without removing it, or null when empty |
| Stacks.Stack.Push | src/stack.h:94-110 | the item becomes the top and count grows by one |
| Stacks.Stack.Pop | src/stack.h:119-138 | pop removes and returns the most recently pushed item and decrements count; on an empty stack it returns null and changes nothing |
| Stacks.Stack.Clear | src/stack.h:149-166 | clear empties the stack and sets count to 0 |
| Stacks.ReverseSnoc | src/stack.h:94-138 | reversal moves a pushed item to the front, the order in which pops return it |
| Stacks.DrainReversed | src/stack.h:94-138 | pushing a sequence and popping until empty gives the items back in reverse order |
| Lists.ReachableIsOrder | src/list.h:80-153 | following next pointers from the first node visits exactly the list order, so the nodes reachable are the ones counted (with src/collection.h:60) |
| Lists.InsertStep | src/list.h:192-232 | linking a new node after position k keeps a well-formed chain whose items are the old items with the new one at k, and the cursor on it |
| Lists.RemoveStep | src/list.h:341-377 | unlinking a node keeps a well-formed chain whose items are the old ones without that node, and the cursor on its successor |
| Lists.InsertAsWrittenOrphans | src/list.h:186-214 | inserting with no cursor into a non-empty list as written leaves the new node unreachable from the first node |
| Lists.List.constructor | src/list.h:63 | a new list is empty, with no cursor and auto-delete off (with src/list.h:480-485) |
| Lists.List.Count | src/collection.h:60 | count() is the number of nodes reachable from the first node |
| Lists.List.IsEmpty | src/collection.h:68 | isEmpty() holds exactly when the list has no items |
| Lists.List.SetAutoDelete | src/collection.h:79 | only the auto-delete flag changes |
| Lists.List.First | src/list.h:80-89 | first() moves the cursor to the first item and returns it; on an empty list it returns null |
| Lists.List.Last | src/list.h:99-108 | last() moves the cursor to the last item and returns it; on an empty list it returns null |
| Lists.List.Current | src/list.h:118-126 | current() returns the item under the cursor, or null without a cursor |
| Lists.List.Next | src/list.h:138-153 | next() moves the cursor one item on and returns that item; past the end it returns null and clears the cursor |
| Lists.List.Prev | src/list.h:165-180 | prev() moves the cursor one item back and returns that item; before the start it returns null and clears the cursor |
| Lists.List.Insert | src/list.h:186-232 | the corrected insert puts the item after the cursor, or at the front with no cursor, makes it the cursor and adds 1 to count |
| Lists.List.InsertAsWritten | src/list.h:192-232 | insert as written: correct with a cursor or into an empty list; with no cursor on a non-empty list the node is counted but not reachable |
| Lists.List.Append | src/list.h:244-263 | the item becomes the last element and the cursor, earlier order is kept, count grows by 1 |
| Lists.List.Prepend | src/list.h:275-293 | the item becomes the first element and the cursor, count grows by 1 |
| Lists.List.Remove | src/list.h:341-377 | remove() unlinks the cursor's node and moves the cursor to its successor; with no cursor it returns false and changes nothing |
| Lists.List.RemoveItem | src/list.h:391-409 | remove(item) removes the first node holding the item and returns true, or returns false and changes nothing if none holds it |
| Lists.List.Contains | src/list.h:421-436 | contains(item) holds exactly when some node holds the item |
| Lists.List.GetFirst | src/list.h:301-328 | the corrected getFirst removes and returns the first item, or null when empty, and clears the last pointer when the list becomes empty |
| Lists.List.GetFirstAsWritten | src/list.h:301-328 | getFirst as written: on a one-item list the last pointer is left naming the freed node |
| Lists.List.Clear | src/list.h:446-465 | clear empties the list, sets count to 0 and clears first, last and cursor |
| HashTables.HashIsPoly | src/hashtable.h:50-58 | hashXmlString computes h = 5·h + c over the characters, which is the base-5 polynomial of the string taken modulo 2^64 |
| HashTables.HashXmlString | src/hashtable.h:50-58 | the loop returns the hash of the string's content, with unsigned 64-bit wrap-around |
| HashTables.Slot | src/hashtable.h:68-99 | every bucket index key % size lies in [0, size) |
| HashTables.SameIsEqual | src/hashtable.h:111-135 | the comparator holds exactly for equal keys; string keys are compared by content through xmlchar_strcmp |
| HashTables.LookupSome | src/hashtable.h:190-201 | a bucket finds a key exactly when one of its items has that key |
| HashTables.DeleteLookup | src/hashtable.h:214-236 | after removing a key from a bucket it is no longer found and all other keys are found as before |
| HashTables.DeleteDistinct | src/hashtable.h:214-236 | removal keeps the keys of a bucket distinct |
| HashTables.DeleteItems | src/hashtable.h:214-236 | removal drops exactly one item when the key is present and changes nothing otherwise |
| HashTables.BucketFind | src/hashtable.h:190-201 | the bucket's find loop returns the data of the item with the key, or null |
| HashTables.BucketRemove | src/hashtable.h:214-236 | the bucket's remove loop unlinks the item with the key and reports whether there was one |
| HashTables.TotalUpdate | src/collection.h:60 | replacing one bucket changes the item total by the difference of the bucket sizes |
| HashTables.InsertItem | src/hashtable.h:317-337 | adding an absent key to its bucket makes it found with its data, increases the total by one and changes no other key |
| HashTables.DeleteItem | src/hashtable.h:350-366 | deleting a present key makes it absent, decreases the total by one and changes no other key |
| HashTables.HashTable.constructor | src/hashtable.h:269-275 | a new table holds no key, with count 0 |
| HashTables.HashTable.Find | src/hashtable.h:298-306 | find returns the key's data, or null for an absent key |
| HashTables.HashTable.Contains | src/hashtable.h:377-385 | contains(k) holds exactly when find(k) is not null |
| HashTables.HashTable.Insert | src/hashtable.h:317-337 | inserting an absent key makes find return the data and adds 1 to count; inserting a present key keeps the old data and count; other keys are untouched |
| HashTables.HashTable.Remove | src/hashtable.h:350-366 | remove returns true and decrements count exactly when the key was present; afterwards the key is absent and other keys are untouched |
| HashTables.HashTable.SetAutoDelete | src/hashtable.h:424-433 | only the auto-delete flag changes |
| Funnels.WriteOf | src/funneldevice.cpp:152-184 | writeData counts every requested byte; it raises DeviceNotPrepared before prepare() and DeviceFull when dataLength + length exceeds the buffer size, leaving the buffer untouched, and otherwise succeeds |
| Funnels.PutCharOf | src/funneldevice.cpp:194-221 | putChar counts its byte; the same two errors, with the capacity test dataLength >= bufferSize, leave the buffer untouched |
| Funnels.WriteKeepsOrder | src/funneldevice.cpp:168-181 | a successful write appends the bytes to what has been accepted so far; in deferred mode they go to buffer[dataLength..] |
| Funnels.PutCharKeepsOrder | src/funneldevice.cpp:207-217 | a successful putChar appends its byte to what has been accepted |
| Funnels.FlushKeepsOrder | src/funneldevice.cpp:84-101 | flush hands buffer[0..dataLength) to the receiver only when data is present, then empties the buffer; otherwise nothing changes |
| Funnels.ImmediateDelivers | src/funneldevice.cpp:180-217 | in immediate mode every successful write or putChar is delivered at once and the buffer stays empty |
| Funnels.FinishDelivers | src/funneldevice.cpp:107-115 | finish delivers everything accepted, in order, and resets the written-byte counter to 0 |
| Funnels.WriteSound | src/funneldevice.cpp:168-178 | a successful write keeps the data-present flag truthful unless it is an empty write over pending data |
| Funnels.EmptyWriteHidesData | src/funneldevice.cpp:168-178 | a zero-length write clears the data-present flag, so a later flush or finish drops the pending bytes (with src/funneldevice.cpp:84-101) |
| Funnels.DecoderConfigAsWritten | src/xmlcodec.cpp:407 | the decoder's funnel is built with the arguments (4096, true) in the (isImmediate, size) positions: immediate with a buffer of size 1 (with src/funneldevice.cpp:44) |
| Funnels.DecoderConfigAsWrittenRefuses | src/xmlcodec.cpp:407 | with that configuration every write of more than one byte is refused as full (with src/funneldevice.cpp:160-166) |
| Funnels.DecoderConfig | src/xmlcodec.cpp:407 | the intended configuration: immediate with a buffer of 4096 bytes |
| Funnels.DecoderConfigDelivers | src/xmlcodec.cpp:407 | with the intended configuration every write of up to 4096 bytes is delivered at once (with src/funneldevice.cpp:152-184) |
| Funnels.FunnelDevice.constructor | src/funneldevice.cpp:44-59 | a new funnel is unprepared, empty, with its immediacy and buffer size as given |
| Funnels.FunnelDevice.Prepare | src/funneldevice.cpp:74-79 | prepare allocates the buffer and marks the device prepared |
| Funnels.FunnelDevice.Flush | src/funneldevice.cpp:84-101 | the device's flush is the value-level flush |
| Funnels.FunnelDevice.Finish | src/funneldevice.cpp:107-115 | the device's finish is the value-level finish |
| Funnels.FunnelDevice.WriteData | src/funneldevice.cpp:152-184 | the device's writeData, copying into the buffer array, is the value-level write |
| Funnels.FunnelDevice.PutChar | src/funneldevice.cpp:194-221 | the device's putChar is the value-level putChar |
| Funnels.FunnelDevice.ReadData | src/funneldevice.cpp:126-129 | the read side is inert: readData returns ReadOk |
| Funnels.FunnelDevice.GetChar | src/funneldevice.cpp:138-142 | getChar stores 0 and returns ReadOk |
| Funnels.FunnelDevice.Counters | src/funneldevice.cpp:228-271 | bytesReadTotal and bytesRead are 0, bytesWritten is the write counter, errorOccurred and eof are false |
| TextCodecs.CodeInjective | src/encodings.h:42-86 | every MIB number names exactly one encoding |
| TextCodecs.EncodingNamesSample | src/encodings.h:98-128 | the name table lists "ISO-8859-1", "ISO-8859-13", "CP-1250" and "KOI8-R" with their MIBs at their positions |
| TextCodecs.NamesEntryIndex | src/encodings.h:98-128 | each entry before the terminator has a known MIB whose name is that entry's name |
| TextCodecs.ListedIff | src/encodings.h:98-128 | a MIB appears before the terminating null entry exactly when it is a known encoding |
| TextCodecs.NameOfInjective | src/encodings.h:98-128 | distinct encodings have distinct names in the table |
| TextCodecs.ScanMIB | src/textcodec.cpp:271-285 | the scan up to the null entry finds m exactly when m appears before it |
| TextCodecs.KnowsMIB | src/textcodec.cpp:271-285 | knowsMIB(m) holds exactly when m is listed in the name table |
| TextCodecs.LookupFound | src/textcodec.cpp:296-346 | a name lookup returns the MIB of the first entry with exactly that name |
| TextCodecs.LookupMissing | src/textcodec.cpp:296-346 | a name matching no entry is not found |
| TextCodecs.GetMIBAsWritten | src/textcodec.cpp:296-346 | getMIB as written: a null name gives UTF-8, a name is matched exactly against the function's own literals, anything else raises UnknownEncoding |
| TextCodecs.GetMIBAsWrittenMisses | src/textcodec.cpp:311-340 | the table's names "CP-125x" and "KOI8-R"/"KOI8-V" are refused by getMIB as written, which spells them with '_' (with src/encodings.h:117-126) |
| TextCodecs.GetMIB | src/textcodec.cpp:296-346 | the corrected getMIB: a null name gives UTF-8; otherwise the name is looked up in the encoding name table |
| TextCodecs.GetMIBNameOf | src/textcodec.cpp:296-346 | the corrected getMIB maps every listed name back to its encoding (with src/encodings.h:98-128) |
| TextCodecs.SuggestAlphabetBaseSize | src/textcodec.cpp:145-155 | the suggested alphabet size is 128 or 256; unknown encodings raise an error |
| TextCodecs.FillSpliced | src/textcodec.cpp:190-220 | the fill loop writes map[i] = i below 128 and the encoding's table above |
| TextCodecs.FillInMapArray | src/textcodec.cpp:190-220 | fillInMapArray produces the map of the encoding, all 256 entries -1 for one it cannot convert |
| TextCodecs.MapForConvertible | src/textcodec.cpp:145-220 | the lower half is the identity exactly for the convertible encodings (US-ASCII, ISO-8859-2); every other map is all -1; for US-ASCII exactly the entries below the suggested alphabet size are valid |
| TextCodecs.ConvertAgreesWithMap | src/textcodec.cpp:232-246 | convert returns the first byte for US-ASCII and -1 for encodings without a map, as the map gives |
| TextCodecs.OutputChar | src/textcodec.cpp:357-371 | output of a character appends it for UTF-8 and UTF-16 and raises UnsupportedOutputEncoding otherwise |
| TextCodecs.OutputString | src/textcodec.cpp:382-397 | output of a string appends its characters up to the terminator for UTF-8 and UTF-16, and raises otherwise |
| TextCodecs.OutputLength | src/textcodec.cpp:409-424 | output of a string with a length appends exactly that many characters for UTF-8 and UTF-16, and raises otherwise |
| CommandLine.SuffixStartMeaning | src/main.cpp:200-215 | the suffix position splits the name into a prefix and the suffix; -1 exactly when the name does not end with the suffix; an empty suffix gives strlen(str) |
| CommandLine.SuffixStartAppend | src/main.cpp:200-215 | a name built as prefix + suffix gives the prefix's length |
| CommandLine.TestFileNameSuffixAsWritten | src/main.cpp:200-215 | testFileNameSuffix as written: the backward loop gives the suffix position, except that it reads before the start of str (modelled as no result) when the suffix is longer than the name and ends with all of it |
| CommandLine.ShortNameReadsBeforeStart | src/main.cpp:562-565 | the file name "e" checked against ".e" makes the loop read before the name (with src/defs.h:46) |
| CommandLine.TestFileNameSuffix | src/main.cpp:200-215 | the corrected loop returns the suffix position for every name and suffix |
| CommandLine.LastNamedAt | src/main.cpp:112-129 | the encoding loop settles on the last table entry with that name |
| CommandLine.ScanLastNamed | src/main.cpp:112-129 | the loop over the name table up to the null entry returns the MIB of the last matching entry, Unknown if none matches |
| CommandLine.SelectEncoding | src/main.cpp:112-129 | -e selects the encoding named by its argument (with src/main.cpp:344-351) |
| CommandLine.OutputEncodingOfName | src/main.cpp:112-129 | every listed encoding name selects that encoding (with src/encodings.h:98-128) |
| CommandLine.OutputEncodingUnnamed | src/main.cpp:122-127 | a name not in the table selects Unknown, which is reported as an unknown encoding |
| CommandLine.OutputEncodingAgreesWithGetMIB | src/main.cpp:112-129 | -e and the corrected getMIB agree on every listed name (with src/textcodec.cpp:296-346) |
| CommandLine.RecognisedOptionLike | src/main.cpp:298-414 | every recognised option starts with '-' |
| CommandLine.ParseArguments | src/main.cpp:293-430 | the argument loop, starting from the default settings (output encoding UTF-16, src/main.cpp:287 with src/xmldefs.h:70-75), computes the settings, the files and the errors that the option scan describes |
| CommandLine.ParsePlain | src/main.cpp:408-424 | arguments that are "-" or do not start with '-' all become files, in order, with the default settings: compress, with the output encoding UTF-16 (MIB 1015), the default of a build without XML_UNICODE (with src/xmldefs.h:70-75) |
| CommandLine.FlagAnywhere | src/main.cpp:298-414 | a flag option has the same effect wherever it stands among file names |
| CommandLine.ParseFilesPlain | src/main.cpp:416-424 | leftover arguments starting with '-', other than "-", are rejected, so no accepted file name is option-like |
| CommandLine.FilesOrStdin | src/main.cpp:463-465 | with no files the single name "-" is used; otherwise the files as given (with src/main.cpp:546-548) |
| CommandLine.CompressJob | src/main.cpp:471-505 | compression reads the named file and writes the name followed by the user suffix or ".e", or standard output for "-" or -c |
| CommandLine.DecompressedLength | src/main.cpp:562-565 | the decompressed name length is the name's length minus ".e", else minus the user suffix, else -1 |
| CommandLine.DecompressJob | src/main.cpp:555-599 | decompression writes the prefix before ".e" or before the user suffix; a file with neither is skipped as an unknown suffix |
| CommandLine.CompressThenDecompress | src/main.cpp:493-599 | decompressing the name that compression produced gives back the original name when the suffixes do not overlap |
| CommandLine.DefaultSuffixRoundTrip | src/main.cpp:493-599 | with the default suffix, decompression restores the original file name |
| CommandLine.LongSuffixEndingInDefault | src/main.cpp:562-565 | a user suffix ending in ".e" is stripped only as ".e", since ".e" is tried first |
| FibTool.WindowAt | tools/fib.py:20-31 | the window starts as `order` ones and its length stays `order` after every step |
| FibTool.SumWindow | tools/fib.py:27-29 | the accumulated sum of the window is the sum of the `order` previous series values |
| FibTool.WindowStep | tools/fib.py:27-31 | each step appends the window's sum and drops its oldest element |
| FibTool.GPositive | tools/fib.py:20-31 | every value of the generalised series is a positive integer |
| FibTool.GMonotone | tools/fib.py:27-31 | each value is at least the previous one |
| FibTool.OrderTwo | tools/fib.py:20-31 | with order 2 the series is the ordinary Fibonacci sequence used by the coder's table |
| FibTool.RunScript | tools/fib.py:6-33 | fewer than two arguments, or an order below 2, give exit status 1 and no series; otherwise max(nr−1, 0)+1 values are written, each window[-2] of its step, separated by ", " and ended by a newline |
| FibTool.SeriesPositiveNondecreasing | tools/fib.py:20-33 | every printed value is positive and at least the one before it |
| Summary.AddFileLookup | tools/summary.py:15-24 | a file joins group file[:-len(suffix)] exactly when it ends with the suffix, its record [suffix, [size, 0]] going after the group's earlier records |
| Summary.AddFilesLookup | tools/summary.py:15-24 | add_files visits the directory listing in order and adds one record per matching file |
| Summary.GroupsLookup | tools/summary.py:29-30 | over all suffix arguments, each group receives its records in argument order |
| Summary.RecordsForLength | tools/summary.py:29-34 | a group has at most one record per suffix, and as many as there are suffixes exactly when a file exists for every suffix |
| Summary.RecordsForEmpty | tools/summary.py:15-30 | a base name has no group exactly when no file with any of the suffixes exists |
| Summary.CompleteIff | tools/summary.py:33-37 | a base name is complete exactly when its record count equals the number of suffix arguments; the others are reported as not found and dropped |
| Summary.SelectStep | tools/summary.py:33-37 | one pass of the completeness loop adds the key to the complete groups or to the reported ones |
| Summary.CompleteAmongAll | tools/summary.py:33-37 | the completeness loop over all keys yields the complete groups and the reported names |
| Summary.MinSizeIsMinimum | tools/summary.py:55-58 | the minimum search finds a size that some record has and no record undercuts |
| Summary.MarkedFlags | tools/summary.py:61-65 | every record whose size equals the group minimum gets flag 1 and all others 0, so ties mark several and at least one is marked |
| Summary.MarkBest | tools/summary.py:53-65 | the search seeded with the second record's suffix string (which any number undercuts in Python 2) marks the minimum records, and fails with an index error for a group of fewer than two records |
| Summary.MarkStep | tools/summary.py:53-65 | one pass of the marking loop marks exactly that group |
| Summary.MarkedAmongAll | tools/summary.py:53-65 | the marking loop over all complete groups marks each of them |
| Summary.AddRatiosClosed | tools/summary.py:73-84 | the baseline is the first record's size; each later record adds size·8/base to its suffix's sum, and the loop fails exactly when a suffix has no sum yet or the baseline is 0 |
| Summary.AccumulateClosed | tools/summary.py:69-84 | over all complete groups, each suffix's sum receives the ratios of all groups |
| Summary.TotalPermutation | tools/summary.py:69-84 | the total ratio of a suffix does not depend on the order in which the dictionary yields the groups |
| Summary.AccumulateOrderFree | tools/summary.py:69-84 | the accumulated sums are the same for every key order |
| Summary.Averages | tools/summary.py:91-92 | each per-suffix average is the accumulated sum divided by the number of complete groups |
| Summary.InitialSums | tools/summary.py:46-48 | the sums start at 0 for the suffixes of the first complete group |
| Summary.HeaderAsWrittenFails | tools/summary.py:40-46 | the guard tests the length of a one-element list, so "No files found" is never printed; with no complete group the script fails at complete_files.keys()[0] |
| Summary.HeaderReportsEmpty | tools/summary.py:40-46 | the corrected guard reports "No files found" exactly when there is no complete group, and otherwise behaves as written |
| Summary.KeyOrder | tools/summary.py:53-69 | the dictionary yields each of its keys once, in some order |
| Summary.MarkGroups | tools/summary.py:53-65 | marking keeps the groups' names and sizes |
| Summary.SummaryScript.AddFiles | tools/summary.py:15-24 | add_files updates the files dictionary only |
| Summary.SummaryScript.Group | tools/summary.py:29-30 | the suffix loop updates the files dictionary only |
| Summary.SummaryScript.SelectComplete | tools/summary.py:33-37 | the completeness loop fills the complete groups and the reported names |
| Summary.SummaryScript.InitSums | tools/summary.py:46-48 | the sums start at 0 for the first complete group's suffixes |
| Summary.SummaryScript.MarkAll | tools/summary.py:53-65 | the marking loop sets the flags of every complete group, or fails when a group has fewer than two records |
| Summary.SummaryScript.AddGroup | tools/summary.py:73-84 | one group's ratios are added to the sums, or the failure the value-level loop names is raised |
| Summary.SummaryScript.Accumulate | tools/summary.py:69-84 | the display loop accumulates the ratios of all groups |
| Summary.Collect | tools/summary.py:9-37 | grouping and the completeness filter produce the complete groups and the reported names |
| Summary.Summarise | tools/summary.py:9-92 | the whole script: "No files found" exactly when no group is complete, an index error when fewer than two suffixes are given, and otherwise the marked groups and the per-suffix averages |
| Contexts.SumSplit | src/context.cpp:119-134 | cumulative frequencies add up over adjacent ranges, the fact the tree walks compute |
| Contexts.LeastPowerOfTwo | src/context.cpp:232-236 | the doubling loop stops at a power of two at least the requested size, and not more than needed (with src/context.cpp:326-330) |
| Contexts.LeastPowerOfTwoIsLeast | src/context.cpp:232-236 | no smaller power of two covers the requested size |
| Contexts.IntervalsContiguous | src/context.cpp:119-134 | the interval of a symbol starts at the cumulative frequency of the lower symbols, its width is the symbol's count, and the next symbol's interval starts where it ends, all within [0, total] (with src/context.cpp:620-642) |
| Contexts.IntervalsDisjoint | src/context.cpp:620-642 | the intervals of two different symbols do not overlap |
| Contexts.IncrProbShape | src/context.cpp:49-105 | incrementing a symbol's probability adds inc to its frequency and to the total and keeps the most-frequent-symbol bookkeeping consistent |
| Contexts.AdjustZeroFreqValid | src/context.cpp:141-156 | ADJUST_ZERO_FREQ sets the escape frequency tree[1] to nSingletons and keeps the table valid |
| Contexts.ResetValid | src/context.cpp:221-262 | a reset table is zeroed except for the escape, which holds the singleton count (2^F_BITS for dynamic contexts, 0 for static ones), with one symbol and incr = 2^F_BITS (with src/context.cpp:722-751) |
| Contexts.SetTypeFresh | src/context.cpp:221-265 | setType(n, t) sets endOfMessage = n+1 and a zeroed table whose size is the least power of two at least n+2; the escape frequency equals nSingletons, which is 0 for a static context |
| Contexts.PurgeFresh | src/context.cpp:722-751 | purgeContext keeps the type, the end-of-message symbol and the initialisation flag, and restores the initial empty table |
| Contexts.Grow | src/context.cpp:326-348 | growing the table keeps the old frequencies and zero-fills the new part |
| Contexts.GrowValid | src/context.cpp:326-348 | the table doubles until the symbol fits, to the least such power of two, and stays valid |
| Contexts.HalveValid | src/context.cpp:649-716 | halveContext makes every frequency f equal to (f+1)/2, keeps the table valid with the total as the sum and the escape as nSingletons, and halves incr but never below MIN_INCR |
| Contexts.HalveUntilFitsValid | src/context.cpp:363-365 | the halving loop ends, with the total at most MAX_FREQUENCY, the table valid, the same symbols known and every other field kept (with src/context.cpp:472-473, src/context.cpp:602-603) |
| Contexts.AddSymbolValid | src/context.cpp:338-362 | installing a new symbol gives it frequency incr, counts it as a singleton and keeps the table valid |
| Contexts.InstallOutcome | src/context.cpp:307-368 | installSymbol of a symbol already installed returns Ok and changes nothing; otherwise the table grows to the least fitting power of two, and it refuses with TooManySymbols exactly when (nSymbols+1)·2 >= MAX_FREQUENCY; on success the symbol becomes known and every known symbol stays known |
| Contexts.InstallNew | src/context.cpp:307-368 | installing a new symbol while the symbol bound allows it makes it known and counts one more symbol |
| Contexts.SettleOutcome | src/context.cpp:363-365 | after an operation's halving loop the total is at most MAX_FREQUENCY, with the status kept (with src/context.cpp:472-473, src/context.cpp:602-603) |
| Contexts.KeptIntervalExact | src/context.cpp:119-134 | the interval the encoder computes before the update is the symbol's interval |
| Contexts.CodedValid | src/context.cpp:412-470 | coding a symbol adds incr to its frequency, updates the singleton count and the escape, and keeps the table valid (with src/context.cpp:540-600) |
| Contexts.EncodedPositionCoded | src/context.cpp:389-430 | encode codes the symbol itself when it is known and the escape otherwise |
| Contexts.EncodeOutcome | src/context.cpp:389-479 | encode throws before initialize(); a novel symbol with a zero escape probability is an error; otherwise it keeps the table valid with the same symbols known, and returns NotKnown exactly when it coded the escape |
| Contexts.DecodeOutcome | src/context.cpp:489-609 | decode throws before initialize(); otherwise it returns a known symbol or NotKnown (the escape) and keeps the table valid with the same symbols known |
| Contexts.FindSymbol | src/context.cpp:525-557 | the position whose cumulative interval holds the target; ContextObject.Context.Descend computes it on the tree |
| Contexts.FindSymbolUnique | src/context.cpp:525-557 | that position is the only one whose cumulative interval holds the target |
| Contexts.CoderIntervalBounds | src/context.cpp:412-470 | the interval passed to the coder is non-empty, inside [0, total), and as wide as the symbol's frequency |
| Contexts.DecodeChoice | src/context.cpp:489-600 | decoding chooses a symbol with a positive frequency |
| Contexts.DecodeChoiceEncloses | src/context.cpp:489-600 | the decoded symbol's coder interval holds the target, and that interval is what decode hands to the coder |
| Contexts.DecodeBelowMostFrequent | src/context.cpp:530-585 | with the most frequent symbol moved to the end of the range, targets below it decode to the same symbol as before |
| Contexts.DecodeAboveMostFrequent | src/context.cpp:530-585 | targets above the moved symbol are shifted by its count and still decode to the same symbol |
| Contexts.EncodeThenDecode | src/context.cpp:389-609 | decoding any target inside the interval encode used reaches the same table and reports the symbol, or the escape when the escape was coded |
| Contexts.DecodeThenEncode | src/context.cpp:389-609 | decoding a target yields an interval that holds it; encoding the decoded symbol produces the same table and interval, and when the escape was decoded, encoding any unknown symbol does |
| Contexts.InstallRangeInstalls | src/context.cpp:274-288 | the install loop of initialize installs every symbol up to its bound |
| Contexts.InitializeFresh | src/context.cpp:274-288 | initialize installs every symbol from 0 to the end-of-message symbol and marks the context initialised |
| Contexts.InitializeOf | src/context.cpp:274-288 | initialize keeps the table valid |
| ContextObject.DecodeSettles | src/context.cpp:489-609 | the decoded symbol's update settles like the encoder's |
| ContextObject.Context.constructor | src/context.cpp:179-265 | a new context is the table that setType gives |
| ContextObject.Context.SetType | src/context.cpp:221-265 | setType replaces the table with the value-level setType |
| ContextObject.Context.Purge | src/context.cpp:722-751 | purgeContext on the object is the value-level purge |
| ContextObject.Context.InitZeroFreq | src/context.cpp:201-209 | initZeroFreq on the object is the value-level one |
| ContextObject.Context.IncrProb | src/context.cpp:49-105 | the tree walk of INCR_SYMBOL_PROB is the value-level increment |
| ContextObject.Context.AdjustZeroFreq | src/context.cpp:141-147 | ADJUST_ZERO_FREQ on the object is the value-level one |
| ContextObject.Context.GetInterval | src/context.cpp:620-642 | getInterval returns the symbol's interval |
| ContextObject.Context.Halve | src/context.cpp:649-716 | halveContext on the object is the value-level halving |
| ContextObject.Context.SettleTable | src/context.cpp:363-365 | the halving loop on the object ends in the state of the value-level repeated halving (with src/context.cpp:472-473, src/context.cpp:602-603) |
| ContextObject.Context.Install | src/context.cpp:307-368 | installSymbol on the object is the value-level install, reallocating the array when it grows |
| ContextObject.Context.GrowTable | src/context.cpp:326-348 | the doubling loop with zero fill is the value-level grow |
| ContextObject.Context.Encode | src/context.cpp:389-479 | encode on the object is the value-level encode and records its coder call |
| ContextObject.Context.EncodeEndOfMessage | src/context.cpp:371-379 | encodeEndOfMessage encodes the end-of-message symbol |
| ContextObject.Context.Decode | src/context.cpp:489-609 | decode on the object is the value-level decode and records its coder calls |
| ContextObject.Context.DecodeSymbol | src/context.cpp:530-600 | the search and update of decode select the value-level choice |
| ContextObject.Context.DecodeMostFrequent | src/context.cpp:510-528 | the fast path for the most frequent symbol is the same update as coding it |
| ContextObject.Context.Initialize | src/context.cpp:274-288 | initialize on the object is the value-level initialize |
| ContextObject.Context.RaiseAlongBack | src/context.cpp:49-58 | INCR_SYMBOL_PROB's walk from the symbol along BACK adds inc to exactly the nodes that hold the symbol, and to no other node |
| ContextObject.Context.GetCount | src/context.cpp:119-134 | GET_COUNT returns the symbol's own frequency: an odd node directly, an even one less the nodes it holds along FORW |
| ContextObject.Context.NewZeroTree | src/context.cpp:254-258 | a new zeroed array of maxLength + 1 entries holds the tree of an all-zero table |
| ContextObject.Context.HalveCounts | src/context.cpp:649-716 | halveContext on the tree leaves the object's counts as the value-level halving does |
| ContextObject.Context.HalveTree | src/context.cpp:660-697 | converting the tree to frequencies, halving them and converting back leaves the tree of the halved frequencies, the escape set to nSingletons (0 for a static context), and returns the halved total |
| ContextObject.Context.ToFrequencies | src/context.cpp:660-673 | the first conversion loop turns a tree into the frequencies it holds |
| ContextObject.Context.LevelDown | src/context.cpp:665-670 | one pass of that loop, for step 2h, takes every node from holding 2h positions to holding h |
| ContextObject.Context.HalveFrequencies | src/context.cpp:676-683 | every frequency from position 2 on becomes (f+1)/2; the loop returns their sum and counts those equal to incr as singletons |
| ContextObject.Context.ToTree | src/context.cpp:686-697 | the second conversion loop turns the frequencies into the tree that holds them |
| ContextObject.Context.LevelUp | src/context.cpp:689-694 | one pass of that loop takes every node from holding h positions to holding 2h |
| ContextObject.Context.Reallocated | src/context.cpp:331-341 | the grown array keeps the old entries and zero-fills the new half |
| ContextObject.Context.DecodeSlowly | src/context.cpp:519-600 | a target outside the moved most frequent symbol's range is decoded by the tree search to the value-level choice, with its coder call recorded and the table coded |
| ContextObject.Context.SlowSearch | src/context.cpp:521-570 | the search with the most frequent symbol moved to the end returns the value-level choice and its interval, and increments that symbol unless it is the escape |
| ContextObject.Context.SearchAndCount | src/context.cpp:525-565 | the tree loops find the symbol whose cumulative interval holds the target, return that interval, and leave the tree of the frequencies with that symbol incremented (the escape is not) |
| ContextObject.Context.PowerSearch | src/context.cpp:525-531 | the doubling loop stops at a power of two p with low the cumulative frequency below p and the target in the window from p up to 2p |
| ContextObject.Context.Descend | src/context.cpp:533-552 | the halving loop ends at the symbol whose cumulative interval holds the target, low being its start, and leaves the tree as decode's descent leaves it |
| ContextObject.Context.DescendAndCount | src/context.cpp:533-553 | descent and last increment leave the tree of the frequencies with the found symbol incremented (the escape is not) |
| ContextObject.Context.CountFound | src/context.cpp:553 | the last increment completes the tree of the incremented frequencies |
| ContextObject.Context.InstallInitial | src/context.cpp:277-279 | initialize's installations: every symbol below the end-of-message symbol, then that symbol, as the value-level install |
| MoffatTrees.LowBit | src/context.h:75-78 | i & -i is a power of two between 1 and i |
| MoffatTrees.BackParent | src/context.h:75 | BACK(p), when it is a node, holds p: the walk of INCR_SYMBOL_PROB moves to a node that holds what the last one held |
| MoffatTrees.BackCovers | src/context.cpp:49-58 | a node below s holds s exactly when it holds BACK(s), so the BACK walk visits every node that holds s |
| MoffatTrees.CoversChain | src/context.cpp:49-58 | below a node p that holds s, the nodes that hold s are those that hold p |
| MoffatTrees.NoCoverBetween | src/context.cpp:49-58 | no node strictly between BACK(p) and p holds what p holds, so the walk misses none |
| MoffatTrees.ForwInside | src/context.cpp:119-134 | inside node s, each node q reached by FORW ends no later than s does: the walk of GET_COUNT stays inside s |
| MoffatTrees.StepRight | src/context.cpp:537-550 | stepping right from symbol by m, no node strictly between holds symbol + m |
| MoffatTrees.TreeSet | src/context.cpp:49-58 | changing one frequency changes exactly the nodes that hold its position, by the change |
| MoffatTrees.TreeOfZeros | src/context.cpp:254-258 | the tree of an all-zero table is all zeros |
| MoffatTrees.TreeGrow | src/context.cpp:331-341 | doubling a table whose size is a power of two with zeros keeps every old node and makes the new ones zero, so the grown array is still a tree |
| MoffatTrees.LevelOne | src/context.cpp:660-673 | at level 1 every node holds only its own position: the converted tree is the frequencies |
| MoffatTrees.LevelSplit | src/context.cpp:665-670 | a node at level 2h less the node h along is the node at level h: the subtraction of the conversion loop |
| MoffatTrees.HeldSet | src/context.cpp:49-58 | an array holding the tree stays a tree of the new frequencies when the nodes holding the changed position change by the difference |
| MoffatTrees.HeldGrow | src/context.cpp:331-341 | an array holding the tree, doubled with zeros, holds the tree of the grown table |
| MoffatTrees.GainedStep | src/context.cpp:537-550 | a step right from s by m: node s gains incr and then holds s + m with the nodes that held s |
| MoffatTrees.GainedTree | src/context.cpp:553 | ending the descent at s and incrementing node s gives the tree of the frequencies with s incremented |
| MoffatTrees.HeldGained | src/context.cpp:537-553 | the same for an array that holds the tree |
| MoffatTrees.DescendStart | src/context.cpp:525-533 | decode's descent starts at a power of two p whose window of p positions holds the target |
| MoffatTrees.DescendHalves | src/context.cpp:537-541 | halving the window at symbol: node symbol + m holds the right half, the node less it the left half |
| MoffatTrees.DescendStep | src/context.cpp:537-550 | one halving of the descent keeps the target inside the window: right when the left half is at most the target, left otherwise; past the table's end the window only narrows |
| ArithCoding.StartOutputtingBitsOf | src/arithcodec.cpp:278-282 | startOutputtingBits empties the bit buffer, so the emitted bits are the bytes already written |
| ArithCoding.OutputBitAppends | src/arithcodec.cpp:73-86 | OUTPUT_BIT appends exactly its bit to the emitted stream |
| ArithCoding.OutputBitFlushes | src/arithcodec.cpp:73-86 | after every BYTE_SIZE bits OUTPUT_BIT writes the full byte, most significant bit first, and counts it |
| ArithCoding.FollowEmits | src/arithcodec.cpp:148-157 | the follow loop emits outBitsOutstanding copies of the bit, resets the count to 0 and keeps L and R |
| ArithCoding.BitPlusFollowEmits | src/arithcodec.cpp:148-172 | BIT_PLUS_FOLLOW(b) outputs b followed by outBitsOutstanding copies of ¬b and resets the count to 0; while the first-bit flag is set it only clears the flag |
| ArithCoding.EncodeRenormaliseOf | src/arithcodec.cpp:188-210 | when ENCODE_RENORMALISE exits, R > Quarter, reached by doubling R once per round |
| ArithCoding.RenormStepShape | src/arithcodec.cpp:188-210 | each round doubles L and R after emitting or deferring one bit, keeps the coder's interval inside [0, 2·Half) and only appends to the output |
| ArithCoding.RenormaliseShape | src/arithcodec.cpp:188-210 | the whole renormalisation keeps that invariant and only appends to the output |
| ArithCoding.IgnoredBitIsLeadingZero | src/arithcodec.cpp:160-172 | the bit the first BIT_PLUS_FOLLOW drops is a 0 with nothing outstanding, the leading zero every message starts with (with src/arithcodec.cpp:602-610) |
| ArithCoding.ShiftQuotientIs | src/arithcodec.cpp:394-420 | the shift/subtract loop computes a·2^n / m, capped at the all-ones value of its n+1 bits |
| ArithCoding.RatioIsQuotient | src/arithcodec.cpp:394-420 | for 2^(F_BITS−1) < total <= 2^F_BITS the implicit ratio of the loop is r = ⌊R/total⌋ (with src/arithcodec.h:86) |
| ArithCoding.EncodeIntervalInside | src/arithcodec.cpp:420-425 | L += low·r, and R becomes (high−low)·r if high < total, else R − low·r: the new interval lies inside the old one and is at least r wide, with 8 <= r < 32 |
| ArithCoding.ArithmeticEncodeValid | src/arithcodec.cpp:377-442 | encoding a symbol keeps the encoder invariant and only appends to the output; its only failure is the MAX_BITS_OUTSTANDING limit |
| ArithCoding.StartEncodeValid | src/arithcodec.cpp:602-610 | startEncode sets L = 0, R = Half and outstanding = 0 and sets the first-bit flag, which satisfies the invariant and emits nothing |
| ArithCoding.FinishBitCountFrom | src/arithcodec.cpp:620-639 | the loop over nbits stops at the first count whose rounded value and value+roundup lie in [L, L+R), or runs past B_BITS |
| ArithCoding.FinishBitCount | src/arithcodec.cpp:620-639 | some nbits <= B_BITS always fits, and the loop picks the smallest |
| ArithCoding.EmitBitsAppends | src/arithcodec.cpp:630-637 | emitting nbits of a value with nothing outstanding appends exactly those bits, most significant first |
| ArithCoding.FinishEncodeEmits | src/arithcodec.cpp:620-639 | finishEncode emits the smallest fitting nbits of a value within [L, L+R): the first through BIT_PLUS_FOLLOW, the rest plainly; under the first-bit flag that first bit is a 0 and is dropped |
| ArithCoding.LeadingZero | src/arithcodec.cpp:620-639 | inside the lower half the first of those bits is a 0 |
| ArithCoding.DoneOutputtingPads | src/arithcodec.cpp:298-306 | doneOutputtingBits flushes a partial byte left-aligned with zeros, only when bits are pending, and writes nothing else |
| ArithCoding.TargetIsQuotient | src/arithcodec.cpp:478-527 | the decoder's target is D / r, clamped to total − 1; a negative D gives 0 |
| ArithCoding.DecodeTargetIs | src/arithcodec.cpp:471-528 | arithmeticDecodeTarget stores r = R/total and always returns a value below total |
| ArithCoding.DecodeFindsEncoded | src/arithcodec.cpp:377-442 | when the code value lies in the interval the encoder narrowed to for [low, high), the decoder finds a target in [low, high) and narrows to the same interval (with src/arithcodec.cpp:471-595) |
| ArithCoding.QuotientInRange | src/arithcodec.cpp:527 | a clamped quotient lies in [low, high) whenever low·r <= D < high·r |
| ArithCoding.MaskProductIs | src/arithcodec.cpp:563-592 | the decoder's bit-testing loop over r << F_BITS multiplies low by the last five bits of r |
| ArithCoding.DecodeNarrowOf | src/arithcodec.cpp:551-595 | the narrowing step of arithmeticDecode leaves a positive range |
| ArithCoding.DecodeRenormaliseOf | src/arithcodec.cpp:213-231 | DECODE_RENORMALISE doubles R until it exceeds Quarter, shifting one input bit into D and V each round |
| ArithCoding.DecodeMirrorsEncode | src/arithcodec.cpp:377-442 | from the same R, arithmeticDecode ends with the R that arithmeticEncode ends with (with src/arithcodec.cpp:551-595) |
| ArithCoding.ReadsNextBit | src/arithcodec.cpp:121-139 | while input bits remain, ADD_NEXT_INPUT_BIT shifts the next one into v and consumes it, reading a new byte when the buffer is used up |
| ArithCoding.ReadBitsBound | src/arithcodec.cpp:121-139 | reading n bits into v appends them to v's binary digits |
| ArithCoding.UngetBitPrepends | src/arithcodec.cpp:97-109 | UNGET_BIT puts the bit back in front of the unread bits, once between reads |
| ArithCoding.BytesBitsFirst | src/arithcodec.cpp:121-139 | the input's bits start with those of its first byte, most significant first |
| ArithCoding.StartDecodeNeverCorrupt | src/arithcodec.cpp:668-700 | startDecode fills D with 31 bits, or with the excess bits left by the previous message, so the D >= Half check cannot fire; afterwards R = Half and V = D |
| ArithCoding.FitsIgnoresHalf | src/arithcodec.cpp:620-735 | a count of bits fits for L exactly when it fits for L + Half, since Half is a multiple of every rounding step |
| ArithCoding.FinishCountIgnoresHalf | src/arithcodec.cpp:620-735 | finishDecode, recovering L from V and D modulo Half, reads exactly as many bits as finishEncode emitted |
| ArithCodecObject.ShiftDivide | src/arithcodec.cpp:478-527 | the shift/subtract loop of arithmeticDecodeTarget computes the capped quotient |
| ArithCodecObject.ShiftAddProducts | src/arithcodec.cpp:394-425 | the encoder's shift/add loop computes temp = low·⌊R/total⌋ and temp2 = high·⌊R/total⌋ |
| ArithCodecObject.ShiftAddRounds | src/arithcodec.cpp:406-419 | each round of that loop doubles both products and adds low and high when a quotient bit is set |
| ArithCodecObject.MaskProducts | src/arithcodec.cpp:563-592 | the decoder's loop multiplies low and high by r = R/total |
| ArithCodecObject.CountFinishBits | src/arithcodec.cpp:620-639 | the finishEncode search returns the smallest fitting nbits and its rounded value |
| ArithCodecObject.ArithCodec.constructor | src/arithcodec.cpp:250-270 | a new coder has the first-bit and first-message flags set, no output bytes and empty bit buffers |
| ArithCodecObject.ArithCodec.StartOutputtingBits | src/arithcodec.cpp:278-282 | the method is the value-level startOutputtingBits |
| ArithCodecObject.ArithCodec.StartInputtingBits | src/arithcodec.cpp:287-291 | the method is the value-level startInputtingBits |
| ArithCodecObject.ArithCodec.PutChar | src/arithcodec.cpp:73-86 | a byte goes to the output device |
| ArithCodecObject.ArithCodec.DoneOutputtingBits | src/arithcodec.cpp:298-306 | the method is the value-level doneOutputtingBits |
| ArithCodecObject.ArithCodec.DoneInputtingBits | src/arithcodec.cpp:311-314 | the method is the value-level doneInputtingBits |
| ArithCodecObject.ArithCodec.OutputBit | src/arithcodec.cpp:73-86 | OUTPUT_BIT on the fields is the value-level one |
| ArithCodecObject.ArithCodec.BitPlusFollow | src/arithcodec.cpp:148-172 | BIT_PLUS_FOLLOW with its follow loop is the value-level one |
| ArithCodecObject.ArithCodec.EncodeRenormalise | src/arithcodec.cpp:188-210 | the renormalisation loop is the value-level one |
| ArithCodecObject.ArithCodec.ArithmeticEncode | src/arithcodec.cpp:377-442 | arithmeticEncode is the value-level encode, failing only where it does |
| ArithCodecObject.ArithCodec.ArithmeticDecodeTarget | src/arithcodec.cpp:471-528 | arithmeticDecodeTarget stores r and returns the value-level target |
| ArithCodecObject.ArithCodec.GetChar | src/arithcodec.cpp:121-139 | reading a byte, or a garbage byte past the end of the input |
| ArithCodecObject.ArithCodec.AddNextInputBit | src/arithcodec.cpp:121-139 | ADD_NEXT_INPUT_BIT on the fields is the value-level one, failing where too many bytes were read past the end |
| ArithCodecObject.ArithCodec.UngetBit | src/arithcodec.cpp:97-109 | UNGET_BIT on the fields is the value-level one |
| ArithCodecObject.ArithCodec.DecodeRenormalise | src/arithcodec.cpp:213-231 | DECODE_RENORMALISE on the fields is the value-level one |
| ArithCodecObject.ArithCodec.ArithmeticDecode | src/arithcodec.cpp:551-595 | arithmeticDecode is the value-level narrowing and renormalisation |
| ArithCodecObject.ArithCodec.StartEncode | src/arithcodec.cpp:602-610 | startEncode is the value-level one |
| ArithCodecObject.ArithCodec.FinishEncode | src/arithcodec.cpp:620-639 | finishEncode searches the bit count and emits the bits as the value-level one does |
| ArithCodecObject.ArithCodec.EmitBits | src/arithcodec.cpp:630-637 | the emitting loop of finishEncode is the value-level one |
| ArithCodecObject.ArithCodec.RetrieveExcessInputBits | src/arithcodec.cpp:742-745 | the excess bits are those of D and V beyond what the message used, below 2·Half |
| ArithCodecObject.ArithCodec.StartDecode | src/arithcodec.cpp:668-700 | startDecode is the value-level one |
| ArithCodecObject.ArithCodec.FinishDecode | src/arithcodec.cpp:708-735 | finishDecode is the value-level one |
| ArithCodecObject.ArithCodec.ReadBits | src/arithcodec.cpp:675-733 | the loops reading n bits into a register are the value-level read |
| ArithCodecObject.ArithCodec.NumberOfOutputBytes | src/arithcodec.cpp:758-761 | the byte counter equals the number of bytes written |
| ArithStream.EmitCommits | src/arithcodec.cpp:148-210 | a round that emits b fixes b and then the outstanding follow bits as the next bits of the stream and leaves none outstanding; under the first-bit flag the bit dropped is the stream's leading 0 |
| ArithStream.StepTracks | src/arithcodec.cpp:188-210 | each round of ENCODE_RENORMALISE fixes exactly one more bit of the stream, committed or owed as a follow bit, so the decoder's window starts one bit later |
| ArithStream.StepOffset | src/arithcodec.cpp:188-210 | each round doubles the offset of the code value from L and adds the bit that enters the window, whether the round emits a bit or defers one |
| ArithStream.RenormaliseKeepsFresh | src/arithcodec.cpp:160-210 | renormalisation clears the first-bit flag before anything is emitted, so nothing is written while it is set |
| ArithStream.RenormaliseOffset | src/arithcodec.cpp:188-210 | if the code value lies in [L, L+R) after ENCODE_RENORMALISE, it lay in the interval before it |
| ArithStream.FinishStream | src/arithcodec.cpp:620-639 | after the bits already committed, the stream goes on with finishEncode's first bit, its follow bits, its other nbits−1 bits and zeros (with src/arithcodec.cpp:298-306 for the padding) |
| ArithStream.FinalInside | src/arithcodec.cpp:620-639 | the value that finishEncode's bits spell, read as the decoder reads them, lies in the final interval [L, L+R) |
| ArithStream.StartTracks | src/arithcodec.cpp:602-610 | startEncode has committed nothing, so its window is the first 32 bits of the stream and its offset their number |
| ArithReadStream.ReadsGarbage | src/arithcodec.cpp:121-139 | past the end of the input ADD_NEXT_INPUT_BIT reads zero bits from up to four garbage bytes |
| ArithReadStream.ReadStreamBit | src/arithcodec.cpp:121-139 | while the stream of input and garbage bits is not used up, ADD_NEXT_INPUT_BIT shifts its next bit into v and consumes it |
| ArithReadStream.ReadStreamBits | src/arithcodec.cpp:121-139 | n reads append the next n bits of that stream to v and leave the stream past them |
| ArithReadStream.FreshReader | src/arithcodec.cpp:287-291 | after startInputtingBits the stream is the input's bits followed by 32 zero bits of garbage |
| ArithReadStream.ReadFirstWord | src/arithcodec.cpp:668-700 | the 31 bits startDecode reads for a first message spell the first 32-bit window of a stream starting with 0, a value below Half |
| ArithMessages.EncodeAllOf | src/arithcodec.cpp:377-442 | encoding a run of symbols keeps the encoder invariant and only appends to the output; it fails only at the MAX_BITS_OUTSTANDING limit |
| ArithMessages.CodeValueInside | src/arithcodec.cpp:377-442 | the code value that finishEncode's bits spell lies inside the encoder's interval before each symbol of the message (with src/arithcodec.cpp:620-639) |
| ArithMessages.EncodesRest | src/arithcodec.cpp:377-442 | encoding a message is arithmeticEncode's narrowing and renormalisation for its first symbol, followed by the encoding of the rest |
| ArithMessages.RenormaliseMirrored | src/arithcodec.cpp:213-231 | DECODE_RENORMALISE keeps step with ENCODE_RENORMALISE: it never reads past the garbage allowance, ends with the encoder's R, and D stays the code value's offset from L (with src/arithcodec.cpp:188-210) |
| ArithMessages.MirrorStep | src/arithcodec.cpp:213-231 | one round of each: the decoder reads into D exactly the bit that enters the encoder's window (with src/arithcodec.cpp:188-210) |
| ArithMessages.EncodeStep | src/arithcodec.cpp:188-210 | one encoder round keeps the invariant, moves the window one bit on and doubles the offset, adding the bit that enters the window |
| ArithMessages.DecodeStep | src/arithcodec.cpp:213-231 | one decoder round doubles R and D and takes the next stream bit into D |
| ArithMessages.DecodeNarrowIs | src/arithcodec.cpp:551-595 | arithmeticDecode lowers D by low·r and narrows R to exactly the R arithmeticEncode narrows to |
| ArithMessages.RenormBelowHalf | src/arithcodec.cpp:213-231 | renormalising a range no wider than Half leaves it no wider than Half |
| ArithMessages.ArithmeticDecodeRange | src/arithcodec.cpp:551-595 | after arithmeticDecode, Quarter < R <= Half again, the range the next target needs |
| ArithMessages.DecodeAllOf | src/arithcodec.cpp:471-595 | decoding a message returns one target per symbol and leaves Quarter < R <= Half |
| ArithMessages.SymbolMirrored | src/arithcodec.cpp:471-595 | while the code value lies in the encoder's interval, arithmeticDecodeTarget returns a target inside the symbol's [low, high), and arithmeticDecode ends mirroring the encoder after that symbol (with src/arithcodec.cpp:377-442) |
| ArithMessages.TargetFound | src/arithcodec.cpp:478-527 | a D inside the symbol's share of the range gives a target in [low, high) |
| ArithMessages.DecodeAllMirrors | src/arithcodec.cpp:471-595 | a decoder mirroring the encoder at the start of the message decodes all of it without error, each target inside its symbol's interval |
| ArithMessages.StartMirrored | src/arithcodec.cpp:668-700 | startDecode on a first message succeeds and leaves a decoder mirroring startEncode's encoder on the message's stream (with src/arithcodec.cpp:602-610) |
| ArithMessages.StartWindowRead | src/arithcodec.cpp:668-700 | the 31 bits startDecode reads make D the first window: below Half, with R = Half |
| ArithMessages.StartFirstIs | src/arithcodec.cpp:668-700 | for a first message startDecode sets D and V to the 31 bits read and R to Half |
| ArithMessages.MessageRoundTrip | src/arithcodec.cpp:602-700 | the whole-message round trip: startEncode, arithmeticEncode per symbol, finishEncode and doneOutputtingBits write bytes that startInputtingBits, startDecode and then arithmeticDecodeTarget and arithmeticDecode per symbol read back without error, each target inside the interval encoded for its symbol (with src/arithcodec.cpp:278-306 and 377-595) |
| ElementModels.NewModeler | src/elementmodel.cpp:216-230 | a new modeler has the start node (id 0, no attribute counts, no attributes expected) and the end node (id 1), current = start, an empty stack and one reference, and satisfies the graph invariant (with src/elementmodel.cpp:96-129) |
| ElementModels.IncFrequency | src/elementmodel.cpp:42-65 | INC_TRANSITION_FREQUENCY adds exactly 1 to one edge, leaves the others, and moves the mpt only to that edge |
| ElementModels.IncKeepsMptMaximal | src/elementmodel.cpp:42-65 | after the increment the mpt still has a frequency no edge of the node exceeds |
| ElementModels.CreateTransition | src/elementmodel.cpp:75-86 | a new edge is appended with id = number of existing edges + 1 and frequency 1, the earlier edges unchanged |
| ElementModels.CreateTransitionKeepsNodeOk | src/elementmodel.cpp:75-86 | so a node's edges stay numbered 1..n in creation order, each used at least once, with a maximal mpt exactly when there is an edge |
| ElementModels.CreateNode | src/elementmodel.cpp:96-129 | CREATE_GRAPH_NODE appends a node whose id is the node counter, and an edge to it from the predecessor when there is one |
| ElementModels.FindFrom | src/elementmodel.cpp:182-205 | FIND_TRANSITION finds the first edge leading to a node of the desired type, and for element nodes to one of the desired modeler |
| ElementModels.MoveToDesiredNodeOf | src/elementmodel.cpp:312-426 | NewNodeCreated exactly when no edge leads to the desired node; Definite exactly when the edge found was the mpt before the move; the edge id is stored exactly when an edge was used; element moves push the node, and bump elementPushes only over an existing edge; end requests reach the single shared end node |
| ElementModels.MoveToDesiredNodeValid | src/elementmodel.cpp:312-426 | moveToDesiredNode keeps the graph invariant |
| ElementModels.MoveForwardOf | src/elementmodel.cpp:442-481 | with no mpt moveForward answers NoNode and changes nothing; otherwise it moves along the mpt |
| ElementModels.Enter | src/elementmodel.cpp:450-533 | moving along an edge counts it, reports the new node and its type, emits endElement with the element's name exactly at the end node and pushes an element node |
| ElementModels.FollowEdgeOf | src/elementmodel.cpp:488-533 | followEdge moves along the edge with the given id when 1 <= id <= n, and otherwise answers NoNode and changes nothing |
| ElementModels.FollowEdgeFinds | src/elementmodel.cpp:493-503 | the edge-id search finds exactly the ids 1..n, at position id − 1 |
| ElementModels.MoveForwardValid | src/elementmodel.cpp:442-533 | moveForward and followEdge keep the graph invariant |
| ElementModels.DecoderFollowsEncoder | src/elementmodel.cpp:312-533 | when the encoder's move answers Definite, moveForward reaches the same state; when it reports an edge id, followEdge with that id does |
| ElementModels.PopCurrentNodeOf | src/elementmodel.cpp:274-285 | popCurrentNode makes the popped top of the stack the current node, and does nothing on an empty stack |
| ElementModels.SetAttributesOf | src/elementmodel.cpp:554-573 | setAttributes returns the prediction before the update and counts the update |
| ElementModels.SetAttributesMajority | src/elementmodel.cpp:554-573 | the prediction is that of the majority of the updates, a tie going to the latest |
| ElementModels.SmallStepsValid | src/elementmodel.cpp:264-285 | popCurrentNode, resetCurrentNode, setAttributes and increaseRefCount keep the invariant (with src/elementmodel.cpp:554-573, src/elementmodel.cpp:629-632) |
| ElementModelerObject.ElementModeler.constructor | src/elementmodel.cpp:216-230 | the constructed object is the new modeler |
| ElementModelerObject.ElementModeler.CreateGraphNode | src/elementmodel.cpp:96-129 | the macro on the node list is the value-level one |
| ElementModelerObject.ElementModeler.CreateGraphTransition | src/elementmodel.cpp:75-86 | the macro on the node list is the value-level one |
| ElementModelerObject.ElementModeler.IncTransitionFrequency | src/elementmodel.cpp:42-65 | the macro on the node list is the value-level one |
| ElementModelerObject.ElementModeler.ResetCurrentNode | src/elementmodel.cpp:264-267 | the current node becomes the start node |
| ElementModelerObject.ElementModeler.PopCurrentNode | src/elementmodel.cpp:274-285 | the method is the value-level popCurrentNode |
| ElementModelerObject.ElementModeler.GetCurrentNode | src/elementmodel.cpp:293-296 | returns the current node |
| ElementModelerObject.ElementModeler.FindTransition | src/elementmodel.cpp:182-205 | the search loop returns the first matching edge |
| ElementModelerObject.ElementModeler.MoveToDesiredNode | src/elementmodel.cpp:312-426 | the method is the value-level moveToDesiredNode, returning *edgeId and *elementPushes as it leaves them |
| ElementModelerObject.ElementModeler.AddSuccessor | src/elementmodel.cpp:319-353 | the node-creating branch |
| ElementModelerObject.ElementModeler.AlongEdge | src/elementmodel.cpp:355-423 | the edge-following branch |
| ElementModelerObject.ElementModeler.EnterEdge | src/elementmodel.cpp:450-533 | the common tail of moveForward and followEdge |
| ElementModelerObject.ElementModeler.MoveForward | src/elementmodel.cpp:442-481 | the method is the value-level moveForward |
| ElementModelerObject.ElementModeler.FollowEdge | src/elementmodel.cpp:488-533 | the method is the value-level followEdge |
| ElementModelerObject.ElementModeler.CurrentNodeType | src/elementmodel.cpp:538-544 | returns the type of the current node |
| ElementModelerObject.ElementModeler.SetAttributes | src/elementmodel.cpp:554-573 | the method is the value-level setAttributes |
| ElementModelerObject.ElementModeler.HasAttributes | src/elementmodel.cpp:582-587 | returns the prediction |
| ElementModelerObject.ElementModeler.IncreaseRefCount | src/elementmodel.cpp:629-632 | adds one reference |
| ElementModelerObject.ElementModeler.GetRefCount | src/elementmodel.cpp:640-643 | returns the reference count |
| KYExpansion.ExpandIsFlat | src/kygrammar.cpp:2007-2029 | expanding a right side is concatenating the strings of its symbols, each variable replaced by the expansion of its rule |
| KYExpansion.ExpansionSolves | src/kygrammar.cpp:2007-2029 | the expansions of all rules satisfy the rule equations: each rule stands for the concatenation of what its symbols stand for |
| KYExpansion.ExpansionUnique | src/kygrammar.cpp:2007-2029 | any valuation that satisfies the rule equations of an acyclic grammar is its expansion, so the grammar determines every rule's string |
| KYExpansion.ExpansionRankFree | src/kygrammar.cpp:2007-2029 | the expansion does not depend on the acyclicity witness chosen |
| KYExpansion.TotalUpdate | src/kygrammar.cpp:1343-1344 | changing one listed right side changes the grammar size by the difference in length |
| KYExpansion.TotalWithout | src/kygrammar.cpp:1656-1657 | removing a listed rule takes its right side out of the grammar size |
| KYExpansion.TotalMerge | src/kygrammar.cpp:1656-1657 | when Reduction Rule 1 gives rule m a new right side and removes rule n, the size changes by the new length minus both old lengths |
| KYGrammars.NewGrammar | src/kygrammar.cpp:252-300 | a new grammar holds only the empty root rule 0, is well formed, and stands for the empty string |
| KYGrammars.CreateRootRuleOfSpec | src/kygrammar.cpp:458-485 | createRootRule fails exactly when a root exists; otherwise the root is a new empty rule with id ruleCounter, listed last, and the counter advances |
| KYGrammars.CreateRuleFresh | src/kygrammar.cpp:497-541 | createRule gives a rule id that is not in use, lists the rule last, reuses the oldest freed id when there is one and otherwise takes ruleCounter and schedules lastFixedSymbol + id for installation |
| KYGrammars.CreateRuleReuses | src/kygrammar.cpp:527-537 | with freed ids queued, the new rule takes the first one, which is not in use |
| KYGrammars.FindRuleOfSpec | src/kygrammar.cpp:552-561 | findRule finds a rule exactly when its id is in use, and returns that rule's right side |
| KYGrammars.FindPairFrom | src/kygrammar.cpp:1355-1446 | the position found holds the digram and is the first one at or after the start; none found means no position holds it |
| KYGrammars.FindDigramIn | src/kygrammar.cpp:1355-1446 | the occurrence found holds the digram in a listed rule; none found means no listed rule holds it |
| KYGrammars.Reduction2Of | src/kygrammar.cpp:1671-1802 | Reduction Rule 2 adds exactly one rule, with the next id, whose right side is the repeated pair of the root |
| KYGrammars.Reduction3Of | src/kygrammar.cpp:1815-1981 | Reduction Rule 3 adds exactly one rule, with the next id, whose right side is the pair found in the other rule |
| KYGrammars.Reduction2Shape | src/kygrammar.cpp:1385-1407 | a pair repeated in the root is replaced at both places by a new variable for a new two-symbol rule |
| KYGrammars.Reduction3Shape | src/kygrammar.cpp:1408-1437 | a pair found in another rule is replaced there and at the end of the root by a new variable for a new two-symbol rule |
| KYGrammars.Reduction1Shape | src/kygrammar.cpp:1540-1659 | after a reduction when I is set, the new rule starts with the variable the root ended with before, and Reduction Rule 1 inlines that rule and frees its id |
| KYGrammars.PushedSolves | src/kygrammar.cpp:1349-1350 | appending a symbol to the root makes the root stand for its old string followed by the symbol's string, every other rule unchanged |
| KYGrammars.ReplacedSolves | src/kygrammar.cpp:1671-1981 | Reduction Rules 2 and 3 keep the string every rule stands for, and the new rule stands for the pair's string |
| KYGrammars.MergedSolves | src/kygrammar.cpp:1540-1659 | Reduction Rule 1 after Reduction Rule 2 or 3 still keeps every remaining rule's string |
| KYGrammars.PushedRanked | src/kygrammar.cpp:1349-1350 | appending a symbol other than the root keeps the grammar acyclic |
| KYGrammars.ReplacedRanked | src/kygrammar.cpp:1671-1981 | a reduction keeps the grammar acyclic, the new rule ranking above the pair's symbols and below the rules that use it |
| KYGrammars.MergedRanked | src/kygrammar.cpp:1540-1659 | inlining the rule the root ended with keeps the grammar acyclic |
| KYGrammars.ReplacedShape | src/kygrammar.cpp:1671-1981 | after a reduction no right side names the root and every rule other than the root keeps at least two symbols |
| KYGrammars.MergedShape | src/kygrammar.cpp:1540-1659 | after Reduction Rule 1 no right side names the root and every rule other than the root keeps at least two symbols |
| KYGrammars.ReplacedRepeat | src/kygrammar.cpp:1385-1437 | after a reduction the root ends with the new variable, which occurs in exactly one other place, the earlier occurrence of the pair |
| KYGrammars.ReplacedDropsN | src/kygrammar.cpp:1540-1659 | when I is set, the rule the root ended with is used only in the new rule, so inlining it loses no other use |
| KYGrammars.MergedRepeat | src/kygrammar.cpp:1400-1431 | after Reduction Rule 1 the root still ends with the new variable, used at most once elsewhere, which is what I being set relies on |
| KYGrammars.ReplacedSize | src/kygrammar.cpp:1799 | Reduction Rules 2 and 3 leave the grammar size as it was after the append: two pairs become two variables and a new two-symbol rule |
| KYGrammars.MergedSized | src/kygrammar.cpp:1656-1657 | Reduction Rule 1 lowers the size by one, back to the size before the append |
| KYGrammars.ReducedIds | src/kygrammar.cpp:497-541 | after Reduction Rule 2 or 3 the rule list gains the new rule last and the id bookkeeping stays consistent |
| KYGrammars.MergedIds | src/kygrammar.cpp:1570-1574 | after Reduction Rule 1 the removed rule leaves the rule list and its id goes to the end of the free-id queue |
| KYGrammars.PushedIntact | src/kygrammar.cpp:1438-1470 | without a reduction, the grammar keeps its invariant with I cleared and grows by one symbol |
| KYGrammars.ReducedIntact | src/kygrammar.cpp:1395-1398 | Reduction Rule 2 or 3 with I clear keeps the invariant and sets I |
| KYGrammars.MergedIntact | src/kygrammar.cpp:1400-1406 | Reduction Rule 2 or 3 followed by Reduction Rule 1 keeps the invariant and the size from before the append |
| KYGrammars.ReducedBodies | src/kygrammar.cpp:1395-1398 | after Reduction Rule 2 or 3 with I set, the root stays, no rule names it, every other rule has two symbols, and the new variable ends the root |
| KYGrammars.MergedBodies | src/kygrammar.cpp:1400-1406 | after Reduction Rule 1 the same shape holds, with I still set |
| KYGrammars.ReduceNone | src/kygrammar.cpp:1376-1384 | when the pair formed at the end of the root has no earlier occurrence, or overlaps it, the symbol is appended and I is cleared |
| KYGrammars.ReduceOnce | src/kygrammar.cpp:1393-1398 | with an earlier occurrence and I clear, Reduction Rule 2 or 3 applies and I is set |
| KYGrammars.ReduceMerge | src/kygrammar.cpp:1400-1406 | with an earlier occurrence and I set, Reduction Rule 1 follows Reduction Rule 2 or 3 |
| KYGrammars.ReduceSpec | src/kygrammar.cpp:1349-1470 | the reductions never reach FATAL on a valid grammar, and leave a grammar that keeps the invariant and every rule's string, the root's extended by the appended symbol's |
| KYGrammars.ReducedFieldsSpec | src/kygrammar.cpp:1349-1470 | the reductions change only the rules, I, the size, the counters and the symbol to install |
| KYGrammars.FStarValues | src/kygrammar.cpp:1349-1350 | the target strings after an append: the root's old string followed by the symbol's, every other rule's as before |
| KYGrammars.SolvedExpansions | src/kygrammar.cpp:1349-1470 | any acyclic grammar with those target strings as a solution expands to them |
| KYGrammars.RecordedSpec | src/kygrammar.cpp:1476-1515 | the context first encodes the appended symbol (when used for output), then installs the new symbol when one is pending, which is then cleared, and nothing else changes |
| KYGrammars.PurgedSpec | src/kygrammar.cpp:365-410 | purge leaves only an empty root rule 0, size 0, and a valid grammar that stands for the empty string |
| KYGrammars.AppendUnfold | src/kygrammar.cpp:1304-1531 | appendToRootRule is the reductions, then the context calls, then the purge check |
| KYGrammars.FinishedGrammar | src/kygrammar.cpp:1524-1528 | after the context calls the grammar is purged exactly when its size reached KY_GRAMMAR_MAX_SIZE, and otherwise keeps every rule's string |
| KYGrammars.FinishedEffects | src/kygrammar.cpp:1330-1341 | the output device receives the appended symbol's string, the context receives the encoding and any installation, and the input queue and other settings stay |
| KYGrammars.AppendToRootRuleSpec | src/kygrammar.cpp:1304-1531 | appendToRootRule on a valid grammar never fails, keeps the grammar valid, extends the root's string by the symbol's and keeps every other rule's string, or purges at the size limit |
| KYGrammars.ValidAppendable | src/kygrammar.cpp:1304-1350 | a valid grammar has the root, the ranked rules and the ids that appendToRootRule needs |
| KYGrammars.AppendToRootRuleEffects | src/kygrammar.cpp:1330-1515 | the device output and the context calls of appendToRootRule, the installed symbol being lastFixedSymbol plus a never-used id |
| KYInput.ExpansionAtLeastTwo | src/kygrammar.cpp:2033-2051 | every rule other than the root stands for at least two terminals |
| KYInput.RuleLength | src/kygrammar.cpp:2033-2051 | getRuleLength is the length of the rule's expansion |
| KYInput.BestMatchFrom | src/kygrammar.cpp:906-942 | the best candidate is a rule whose string starts the input queue, and its length is that string's |
| KYInput.LongestMatchSpec | src/kygrammar.cpp:903-989 | the rule chosen is a complete match of the input queue at least as long as every other complete match; with none, one terminal is taken |
| KYInput.EatenLength | src/kygrammar.cpp:1182-1209 | eatData dequeues at least one and at most all queued values |
| KYInput.EatenSpec | src/kygrammar.cpp:1182-1215 | the symbol appended to the root stands for exactly the values dequeued |
| KYInput.DequeuedValid | src/kygrammar.cpp:1182-1209 | dequeuing keeps the grammar valid and its text unchanged |
| KYInput.EatStepSpec | src/kygrammar.cpp:903-989 | one forced round of eatData never fails, keeps the grammar valid and removes a non-empty prefix of the queue |
| KYInput.EatStepText | src/kygrammar.cpp:903-989 | below the size limit, one round moves the dequeued values onto the root's string |
| KYInput.EatDataOf | src/kygrammar.cpp:899-1222 | eatData keeps the grammar valid, stops with an empty queue or a rule still waiting for more input, and below the size limit the root's string followed by the queue is unchanged |
| KYInput.FlushOf | src/kygrammar.cpp:1284-1291 | flush empties the queue, keeps the grammar valid, and below the size limit moves the whole queue onto the root's string |
| KYInput.EnqueuedValid | src/kygrammar.cpp:1237-1258 | appending a value to the queue keeps the grammar valid and its text unchanged |
| KYInput.AppendOf | src/kygrammar.cpp:1237-1275 | append queues the value, runs eatData every 800 values and resets the countdown, and keeps the root's string followed by the queue equal to the data appended |
| KYGrammarObject.KYGrammar.constructor | src/kygrammar.cpp:241-300 | the object starts as the value-level new grammar, valid |
| KYGrammarObject.KYGrammar.ListRule | src/kygrammar.cpp:539 | the rule is stored in the map and appended to the rule list |
| KYGrammarObject.KYGrammar.CreateRootRule | src/kygrammar.cpp:458-485 | the method is the value-level createRootRule |
| KYGrammarObject.KYGrammar.TakeId | src/kygrammar.cpp:515-537 | takes the oldest freed id or the counter, scheduling the new symbol in that case |
| KYGrammarObject.KYGrammar.CreateRule | src/kygrammar.cpp:497-541 | the method is the value-level createRule |
| KYGrammarObject.KYGrammar.FindRule | src/kygrammar.cpp:552-561 | returns the rule exactly when its id is listed |
| KYGrammarObject.KYGrammar.Inline | src/kygrammar.cpp:1576-1650 | the inlined rule's right side replaces the first symbol of the rule using it, and the inlined rule goes |
| KYGrammarObject.KYGrammar.FreeId | src/kygrammar.cpp:1570-1657 | the freed id joins the queue and the size drops by one, wrapping at zero like size_t |
| KYGrammarObject.KYGrammar.ReductionRule1 | src/kygrammar.cpp:1540-1659 | the method is the value-level Reduction Rule 1, FATAL when the rule does not start with a variable |
| KYGrammarObject.KYGrammar.SetBody | src/kygrammar.cpp:1700-1790 | replaces one right side |
| KYGrammarObject.KYGrammar.ReductionRule2 | src/kygrammar.cpp:1671-1802 | the method is the value-level Reduction Rule 2 |
| KYGrammarObject.KYGrammar.ReductionRule3 | src/kygrammar.cpp:1815-1981 | the method is the value-level Reduction Rule 3 |
| KYGrammarObject.KYGrammar.SymbolString | src/kygrammar.cpp:1330-1338 | the string written to the output device for a symbol is its expansion |
| KYGrammarObject.KYGrammar.Show | src/kygrammar.cpp:1330-1338 | the device receives the symbol's string |
| KYGrammarObject.KYGrammar.CountAndAppend | src/kygrammar.cpp:1341-1350 | runCount and size grow by one and the symbol ends the root |
| KYGrammarObject.KYGrammar.Push | src/kygrammar.cpp:1330-1350 | the method is the value-level first half of appendToRootRule |
| KYGrammarObject.KYGrammar.SetAdded | src/kygrammar.cpp:1381 | sets I |
| KYGrammarObject.KYGrammar.SettleAdded | src/kygrammar.cpp:1393-1406 | sets I, or applies Reduction Rule 1 to the new rule when I was set |
| KYGrammarObject.KYGrammar.Reduce2 | src/kygrammar.cpp:1388-1406 | Reduction Rule 2 and the update of I |
| KYGrammarObject.KYGrammar.Reduce3 | src/kygrammar.cpp:1414-1432 | Reduction Rule 3 and the update of I |
| KYGrammarObject.KYGrammar.PushAndReduce | src/kygrammar.cpp:1330-1470 | the method is the value-level append and reductions |
| KYGrammarObject.KYGrammar.ReducePushed | src/kygrammar.cpp:1352-1470 | the reductions after the append, given the occurrence found |
| KYGrammarObject.KYGrammar.ReduceFound | src/kygrammar.cpp:1368-1446 | the reduction chosen for an earlier occurrence of the pair |
| KYGrammarObject.KYGrammar.Record | src/kygrammar.cpp:1476-1515 | the method is the value-level context calls |
| KYGrammarObject.KYGrammar.AppendToRootRule | src/kygrammar.cpp:1304-1531 | the method is the value-level appendToRootRule, keeps the object valid, and updates the rank witness |
| KYGrammarObject.KYGrammar.ReduceAndRecord | src/kygrammar.cpp:1330-1515 | the reductions and the context calls, before the purge check |
| KYGrammarObject.KYGrammar.ClearRules | src/kygrammar.cpp:370-385 | every rule goes |
| KYGrammarObject.KYGrammar.ClearRoot | src/kygrammar.cpp:394-396 | the root and the rule counter are reset |
| KYGrammarObject.KYGrammar.ResetCounters | src/kygrammar.cpp:389-409 | runCount, I, size and the free-id queue are reset |
| KYGrammarObject.KYGrammar.Purge | src/kygrammar.cpp:365-410 | the method is the value-level purge |
| KYGrammarObject.KYGrammar.ReconstructRule | src/kygrammar.cpp:2007-2029 | the values written are the rule's expansion |
| KYGrammarObject.KYGrammar.GetRuleLength | src/kygrammar.cpp:2033-2051 | returns the length of the rule's expansion |
| KYGrammarObject.KYGrammar.MatchInput | src/kygrammar.cpp:574-895 | reports whether the rule's string is a prefix of the queue (complete, with its length) or the queue a proper prefix of the rule's string (partial) |
| KYGrammarObject.KYGrammar.LongestMatchingRule | src/kygrammar.cpp:906-942 | returns the longest complete match, scanning the rule list in order |
| KYGrammarObject.KYGrammar.IsWaiting | src/kygrammar.cpp:1114-1180 | reports whether some rule could still match once more input arrives |
| KYGrammarObject.KYGrammar.Dequeue | src/kygrammar.cpp:1182-1209 | removes the first k values of the queue |
| KYGrammarObject.KYGrammar.EatStep | src/kygrammar.cpp:903-989 | the method is one value-level round of eatData and keeps the object valid |
| KYGrammarObject.KYGrammar.EatData | src/kygrammar.cpp:899-1222 | the method is the value-level eatData, forced or not, and keeps the object valid |
| KYGrammarObject.KYGrammar.Enqueue | src/kygrammar.cpp:1237-1258 | the value joins the queue, the maximum queue length is updated and the countdown drops |
| KYGrammarObject.KYGrammar.ResetPeriodicity | src/kygrammar.cpp:1273 | the countdown restarts at 800 |
| KYGrammarObject.KYGrammar.Append | src/kygrammar.cpp:1237-1275 | the method is the value-level append and keeps the object valid |
| KYGrammarObject.KYGrammar.Flush | src/kygrammar.cpp:1284-1291 | the method is the value-level flush and keeps the object valid |
| XmlModelBase.ChangeState | src/xmlsimplemodel.cpp:62-72 | CHANGE_STATE(s) moves the decoder to s exactly when it is not reading a known element's code and its state is None or s already, and reports whether it did |
| XmlModelBase.ChangeStateHolds | src/xmlsimplemodel.cpp:62-72 | once a structure is being read, only a request for that same structure succeeds until the state is reset to None |
| XmlModelBase.Put | src/xmlsimplemodel.cpp:1574-1575 | writing a byte at bufferLength succeeds exactly while the buffer has room, and appends the byte |
| XmlModelBase.Chunked | src/xmlsimplemodel.cpp:1572-1583 | data longer than the buffer leaves in chunks of exactly the buffer's size, the rest stays in the buffer, and chunks and rest together are the buffer followed by the data |
| XmlModelBase.FibBitOnTrack | src/xmlsimplemodel.cpp:1210-1241 | a bit before the code's stop bit keeps the streaming Fibonacci reader pending and on track; the stop bit completes the code word |
| XmlModelBase.FibByteOnTrack | src/xmlsimplemodel.cpp:1204-1264 | a byte of the stream leaves the reader pending and on track while the stop bit lies beyond it, and otherwise completes the code word of the bits up to the stop bit |
| XmlModelBase.StreamedId | src/xmlsimplemodel.cpp:1204-1264 | the bytes encodeToBuffer writes for an id n keep the reader pending up to the last one, whose code word Fibonacci::decode maps back to n |
| XmlSimpleEncoding.NameOf | src/xmlsimplemodel.cpp:631-705 | a known name is written as KnownElement and the Fibonacci code of its id; a new name takes id elementCounter, is spelled after NewElement with its terminator, and the counter moves on by one |
| XmlSimpleEncoding.AttributesIds | src/xmlsimplemodel.cpp:558-629 | the attribute loop keeps old ids, gives new names ids from the counter on, all distinct and below the new counter |
| XmlSimpleEncoding.AttributeOrder | src/xmlsimplemodel.cpp:558-629 | each attribute's share of the list is its name, new or known, followed by its value |
| XmlSimpleEncoding.ManageEventOf | src/xmlsimplemodel.cpp:297-825 | manageEvent only appends to the grammar; a fatal event leaves the encoder as it was; only a start tag changes the ids |
| XmlSimpleEncoding.ManageEventKeepsIds | src/xmlsimplemodel.cpp:297-825 | every event keeps the ids positive, distinct and below the counter |
| XmlSimpleEncoding.StartElementKeepsIds | src/xmlsimplemodel.cpp:556-710 | a start tag keeps the ids valid |
| XmlSimpleEncoding.NewElementEncoding | src/xmlsimplemodel.cpp:631-708 | a start tag with a new name and no attributes is NewElement, the name and EndOfBlock; the name takes id elementCounter, which grows by one, and that id is pushed |
| XmlSimpleEncoding.KnownElementEncoding | src/xmlsimplemodel.cpp:631-708 | a start tag with a known name and no attributes is KnownElement and the Fibonacci buffer of its id, which is pushed; the ids do not change |
| XmlSimpleEncoding.AttributesComeFirst | src/xmlsimplemodel.cpp:556-710 | with attributes, Attributes opens the tag, the attributes follow, EndOfBlock closes the list and the element name comes last |
| XmlSimpleEncoding.StartElementManaged | src/xmlsimplemodel.cpp:556-710 | a start tag is always accepted and encoded as described |
| XmlSimpleEncoding.EndElementEncoding | src/xmlsimplemodel.cpp:713-739 | an end tag of a known element appends EndElement alone; one whose name was never started is fatal |
| XmlSimpleEncoding.DataEncodings | src/xmlsimplemodel.cpp:742-813 | character data, default data, comments and processing instructions append their symbol and terminated text; a null comment is refused after its symbol |
| XmlSimpleEncoding.UnknownEventRefused | src/xmlsimplemodel.cpp:816-819 | an unknown event type is refused and changes nothing |
| XmlSimpleDecoding.Intercept | src/xmlsimplemodel.cpp:858-1034 | the first switch passes a symbol on only in the state it found |
| XmlSimpleDecoding.FeedIsReceiveData | src/xmlsimplemodel.cpp:835-1586 | a one-byte receiveData call is one decoder step |
| XmlSimpleDecoding.DeliverAppend | src/xmlsimplemodel.cpp:835-1586 | delivering a + b is delivering a and then b to what a left: the decoder keeps all its state between calls |
| XmlSimpleRoundTrip.XmlDeclBytes | src/xmlsimplemodel.cpp:1043-1111 | the symbols of an XML declaration make the decoder emit that declaration |
| XmlSimpleRoundTrip.PIBytes | src/xmlsimplemodel.cpp:1113-1158 | the symbols of a processing instruction make the decoder emit it, a missing value as empty |
| XmlSimpleRoundTrip.DoctypeBytes | src/xmlsimplemodel.cpp:1320-1377 | the symbols of a document type start make the decoder emit it and enter the document type |
| XmlSimpleRoundTrip.EntityDeclBytes | src/xmlsimplemodel.cpp:1379-1456 | the symbols of an entity declaration make the decoder emit it |
| XmlSimpleRoundTrip.NotationDeclBytes | src/xmlsimplemodel.cpp:1458-1522 | the symbols of a notation declaration make the decoder emit it |
| XmlSimpleRoundTrip.ChunkText | src/xmlsimplemodel.cpp:1572-1583 | the bytes of a text are taken into the buffer and emitted in chunks of the buffer's size as they fill it |
| XmlSimpleRoundTrip.DataBytes | src/xmlsimplemodel.cpp:1524-1584 | terminated text comes back as the data calls of its state and the decoder returns to None |
| XmlSimpleRoundTrip.NewNameBytes | src/xmlsimplemodel.cpp:1160-1202 | NewElement and a spelled name give the name the decoder's next id, as the encoder did |
| XmlSimpleRoundTrip.KnownNameBytes | src/xmlsimplemodel.cpp:1204-1264 | KnownElement and the Fibonacci code of an id read back the name of that id |
| XmlSimpleRoundTrip.AttributesBytes | src/xmlsimplemodel.cpp:877-891 | the symbols of an attribute list teach the decoder the encoder's new attribute names and queue names and values in order |
| XmlSimpleRoundTrip.PlainStartBytes | src/xmlsimplemodel.cpp:1160-1264 | the symbols of a start tag without attributes emit that start tag, with the decoder's ids and stack moved as the encoder's were |
| XmlSimpleRoundTrip.ListStartBytes | src/xmlsimplemodel.cpp:877-1264 | the symbols of a start tag with attributes emit it with its attributes, and the decoder's names agree with the encoder's ids afterwards |
| XmlSimpleRoundTrip.EndElementDelivered | src/xmlsimplemodel.cpp:913-935 | EndElement emits the end of the element on top of the stack and pops it |
| XmlSimpleRoundTrip.EventBytes | src/xmlsimplemodel.cpp:297-1586 | what manageEvent appends for one event makes receiveData emit that event's SAX calls, the two sides staying in agreement |
| XmlSimpleRoundTrip.EncodeAll | src/xmlsimplemodel.cpp:297-825 | managing a sequence of events only appends to the grammar |
| XmlSimpleRoundTrip.DocumentRoundTrip | src/xmlsimplemodel.cpp:297-1586 | decoding what the encoder wrote for a sequence of events emits those events' SAX calls in order and leaves encoder and decoder in agreement |
| XmlSimpleRoundTrip.SessionRoundTrip | src/xmlsimplemodel.cpp:297-1586 | from the constructor's state on both sides, receiveData of everything manageEvent wrote emits exactly the events' SAX calls |
| XmlSimpleModelObject.XmlSimpleModel.constructor | src/xmlsimplemodel.cpp:207-257 | a new model has no names, the counter at 1 and nothing read, on both sides |
| XmlSimpleModelObject.XmlSimpleModel.AppendName | src/xmlsimplemodel.cpp:631-705 | the name's symbols go to the grammar and the id table and counter are updated as NameOf says |
| XmlSimpleModelObject.XmlSimpleModel.AppendAttributes | src/xmlsimplemodel.cpp:558-629 | the loop over the attributes appends their symbols and updates ids and counter as AttributesOf says |
| XmlSimpleModelObject.XmlSimpleModel.StartElement | src/xmlsimplemodel.cpp:556-710 | a start tag on the object is the value-level start tag |
| XmlSimpleModelObject.XmlSimpleModel.ManageEvent | src/xmlsimplemodel.cpp:297-825 | manageEvent on the object is the value-level one, with its answer or its fatal error |
| XmlSimpleModelObject.XmlSimpleModel.ReceiveData | src/xmlsimplemodel.cpp:835-1586 | the byte loop of receiveData on the object is the value-level receiveData, ending with its error if it halts |
| XmlSimpleModelObject.ManageEvents | src/xmlsimplemodel.cpp:297-825 | manageEvent called for each event in turn leaves the object's encoder as EncodeAll |
| XmlSimpleModelObject.ReceiveBytes | src/xmlsimplemodel.cpp:835-1586 | receiveData called a byte at a time leaves the decoder as delivering the bytes at once |
| XmlSimpleModelObject.RoundTripObjects | src/xmlsimplemodel.cpp:297-1586 | one object encodes the events and a second receives the bytes: its SAX calls are the events' calls and no error occurs |
| XmlSimpleRoundTrip.CommentOverReadAsWritten | src/xmlsimplemodel.cpp:1291-1314 | as written, a comment of 1024 bytes or more halts the decoder: the full 1024-byte buffer is handed to comment() with no terminating zero, so the call reads past the array |
| XmlSimpleRoundTrip.CommentFixed | src/xmlsimplemodel.cpp:1291-1314 | in the corrected decoder every comment comes back in pieces of the buffer's size and the decoder returns to None |
| XmlSimpleRoundTrip.EmptyCDATASent | src/xmlsimplemodel.cpp:775-790 | an empty CDATA section is encoded as two CDATA symbols |
| XmlSimpleRoundTrip.EmptyCDATAAsWritten | src/xmlsimplemodel.cpp:956-978 | as written, the second CDATA symbol cannot change the state and is buffered as data: the section is never ended |
| XmlSimpleRoundTrip.EmptyCDATAFixed | src/xmlsimplemodel.cpp:956-978 | in the corrected decoder the empty section is started and ended and the decoder is idle |
| XmlAdaptiveEncoding.ConvertAmp | src/xmladaptivemodel.cpp:105-127 | APPEND_ALL_DATA_LENGTH_CONVERT_AMP writes the data with every '&' replaced by AMP_REPLACEMENT and every other byte kept |
| XmlAdaptiveEncoding.AttributeNumbering | src/xmladaptivemodel.cpp:871-922 | the attribute names draw ids from a counter of their own, exactly as the simple model numbers its names |
| XmlAdaptiveEncoding.FreshValid | src/xmladaptivemodel.cpp:236-316 | the constructor's state satisfies the encoder's invariant |
| XmlAdaptiveEncoding.StartElementValid | src/xmladaptivemodel.cpp:659-946 | a start tag keeps the invariant: element ids distinct and below the counter, every id with a well-formed modeler that refers only to known ids, and the open modelers among them |
| XmlAdaptiveEncoding.EndElementValid | src/xmladaptivemodel.cpp:951-1025 | an end tag keeps the invariant |
| XmlAdaptiveEncoding.ManageEventValid | src/xmladaptivemodel.cpp:397-1392 | every event keeps the invariant |
| XmlAdaptiveEncoding.PredictedStartSilent | src/xmladaptivemodel.cpp:776-942 | a start tag the modelers predict writes nothing: when the parent's move to the known element is definite and its modeler predicts no attributes, the output is unchanged and the clue edge grows by two |
| XmlAdaptiveEncoding.KnownPredicted | src/xmladaptivemodel.cpp:776-847 | a definite move to a known element writes nothing and adds one to the clue edge |
| XmlAdaptiveEncoding.NoAttributesPredicted | src/xmladaptivemodel.cpp:927-942 | a start tag without attributes, as its modeler predicted, writes nothing and adds one to the clue edge |
| XmlAdaptiveEncoding.UnknownStartSpelled | src/xmladaptivemodel.cpp:667-775 | an unknown element inside an open one is spelled out after NACK and the clue edge unless the parent builds, takes the counter as its id, and is pushed as a building modeler with the parent now building |
| XmlAdaptiveEncoding.NewChildSpelled | src/xmladaptivemodel.cpp:715-765 | the parent's modeler, having no node for the new id, creates one, and the spelled name follows what it reports |
| XmlAdaptiveEncoding.RunContinues | src/xmladaptivemodel.cpp:1083-1084 | inside a run, character data is appended as it is, with no symbol |
| XmlAdaptiveEncoding.RunOpens | src/xmladaptivemodel.cpp:1033-1084 | outside a run, character data opens one: the output ends with Characters and the data, the clue edge is reset |
| XmlAdaptiveEncoding.OpenRunEnds | src/xmladaptivemodel.cpp:1033-1079 | opening a run ends the output with Characters and resets the clue edge |
| XmlAdaptiveEncoding.CharactersOutsideFail | src/xmladaptivemodel.cpp:1030-1037 | character data before the root element calls the top modeler of an empty stack, a null pointer in the source, and fails with the encoder unchanged |
| XmlAdaptiveEncoding.TagClosesRun | src/xmladaptivemodel.cpp:663-667 | the next start or end tag closes an open run with EndOfBlock |
| XmlAdaptiveEncoding.DefaultInRun | src/xmladaptivemodel.cpp:1098-1152 | default data inside a run is appended with '&' replaced and no terminator |
| XmlAdaptiveEncoding.UnknownEndFatal | src/xmladaptivemodel.cpp:962-967 | ending an element that was never started is fatal |
| XmlAdaptiveEncoding.UnrecognisedRefused | src/xmladaptivemodel.cpp:1376-1380 | an event manageEvent does not know leaves the encoder alone and answers false |
| XmlAdaptiveDecoding.Started | src/xmladaptivemodel.cpp:1413-1417 | the decoder starts with a buffer of 1024 bytes, its first byte zero, nothing in use, no state and in the prolog |
| XmlAdaptiveDecoding.ResetBuffer | src/xmladaptivemodel.cpp:47-52 | RESET_BUFFER empties the buffer and keeps its size |
| XmlAdaptiveDecoding.PutByte | src/xmladaptivemodel.cpp:2614-2615 | storing a byte succeeds exactly while the buffer has room, and writes it at bufferLength |
| XmlAdaptiveDecoding.DeliverAppend | src/xmladaptivemodel.cpp:1396-3410 | delivering a + b is delivering a and then b: the decoder keeps its state between calls |
| XmlAdaptiveAgreement.XmlDeclRead | src/xmladaptivemodel.cpp:2549-2619 | the symbols of an XML declaration make the decoder emit that declaration |
| XmlAdaptiveAgreement.DoctypeRead | src/xmladaptivemodel.cpp:1733-1801 | the symbols of a document type start make the decoder emit it and enter the document type |
| XmlAdaptiveAgreement.EndDoctypeRead | src/xmladaptivemodel.cpp:1568-1586 | Doctype inside the document type emits its end |
| XmlAdaptiveAgreement.EntityDeclRead | src/xmladaptivemodel.cpp:3027-3105 | the symbols of an entity declaration make the decoder emit it |
| XmlAdaptiveAgreement.NotationDeclRead | src/xmladaptivemodel.cpp:3106-3171 | the symbols of a notation declaration make the decoder emit it |
| XmlAdaptiveAgreement.DefaultRead | src/xmladaptivemodel.cpp:2959-2965 | default data of the prolog comes back as one default call |
| XmlAdaptiveAgreement.CommentRead | src/xmladaptivemodel.cpp:2897-2909 | in the corrected decoder, a comment of the prolog comes back as its comment call, none for an empty one, and the decoder is idle again |
| XmlAdaptiveAgreement.PIRead | src/xmladaptivemodel.cpp:2927-2957 | in the corrected decoder, a processing instruction of the prolog comes back with its target and value |
| XmlAdaptiveAgreement.RunRead | src/xmladaptivemodel.cpp:3172-3407 | a character run comes back as its data calls, after the replay of the Characters node |
| XmlAdaptiveAgreement.PrologEventRead | src/xmladaptivemodel.cpp:1396-3410 | what manageEvent appends for one prolog event makes receiveData emit that event's SAX calls |
| XmlAdaptiveAgreement.ManageAllOut | src/xmladaptivemodel.cpp:397-1392 | managing prolog events appends exactly their symbols and opens no element |
| XmlAdaptiveAgreement.PrologRead | src/xmladaptivemodel.cpp:1396-3410 | the symbols of a sequence of prolog events come back as those events' SAX calls in order |
| XmlAdaptiveAgreement.PrologRoundTrip | src/xmladaptivemodel.cpp:397-3410 | from the constructor's buffer, receiveData of what manageEvent wrote for a prolog emits exactly its events' SAX calls |
| XmlAdaptiveAgreement.DoctypeInDefault | src/xmladaptivemodel.cpp:1568-1586 | in the Default state the Doctype symbol sets inDoctype and is then stored as data |
| XmlAdaptiveNack.NackCode | src/xmladaptivemodel.cpp:1802-1860 | in the corrected decoder, the NACK state reads the Fibonacci code of n, bit by bit, as n and hands over to the element models there |
| XmlAdaptiveNack.ClueRead | src/xmladaptivemodel.cpp:1521-1860 | in the corrected decoder NACK and the code of the clue edge read back that clue edge |
| XmlAdaptiveNack.EdgeRead | src/xmladaptivemodel.cpp:1521-1860 | after a NACK, DifferentEdge and the code of an edge read back that edge and reset the clue edge to 1 |
| XmlAdaptiveNack.IndefiniteRead | src/xmladaptivemodel.cpp:1521-1860 | an indefinite move's two reports, clue edge then edge, read back both |
| XmlAdaptiveNack.CodeOf55 | src/fibonacci.cpp:169-200 | the Fibonacci code of 55 is the bytes 0x00 0xC0: it starts with a zero byte |
| XmlAdaptiveNack.ZeroCodeByteDropped | src/xmladaptivemodel.cpp:1521-1536 | as written, a zero byte in the NACK state is taken for another NACK and dropped |
| KYDigramIndex.NewIndexed | src/kygrammar.cpp:252-300 | a new grammar starts with an empty root rule and an empty digram index |
| KYDigramIndex.FirstWith | src/kygrammar.cpp:1369-1372 | the lookup returns the first entry whose origin has the new symbol, and none when no entry does |
| KYDigramIndex.Add | src/kygrammar.cpp:122-163 | DIGRAM_ADD creates the list when missing and records the element unless an entry's origin already has its symbol |
| KYDigramIndex.AddTellsTerminalsApart | src/kygrammar.cpp:122-163 | DIGRAM_ADD tells terminal neighbours apart by value, since the rule field it compares holds the terminal's value: after x a, the digram x b of another terminal is recorded, and a second x a is not (with src/kydefs.h:77-84, src/kygrammar.cpp:975-977) |
| KYDigramIndex.RemoveFirst | src/kygrammar.cpp:99-120 | DIGRAM_REMOVE drops the first entry of that origin, one entry when there is one and none otherwise |
| KYDigramIndex.ChangeFirst | src/kygrammar.cpp:165-185 | DIGRAM_CHANGE renames the rule of an entry and keeps every origin |
| KYDigramIndex.Rule2Elements | src/kygrammar.cpp:1671-1813 | reductionRule2 on the elements: both pairs replaced by new elements of the new rule, which takes the first pair's elements |
| KYDigramIndex.Rule3Elements | src/kygrammar.cpp:1815-1988 | reductionRule3 on the elements: the pair in the other rule and the new pair in the root are replaced by new elements of the new rule |
| KYDigramIndex.Rule1Elements | src/kygrammar.cpp:1540-1669 | reductionRule1 on the elements: the replaced rule's elements take the place of its only use and the rule goes |
| KYDigramIndex.IndexFind | src/kygrammar.cpp:1353-1372 | the earlier occurrence appendToRootRule takes from the index: none exactly when the list of the last symbol has no entry for the new one, and otherwise the position after which the entry's origin lies |
| KYDigramIndex.AppendAsWritten | src/kygrammar.cpp:1304-1531 | appendToRootRule with the index succeeds exactly when its reductions do, with their elements and index |
| KYDigramIndex.ReduceAsWrittenAgrees | src/kygrammar.cpp:1353-1470 | where the index names the occurrence the search of the right sides finds, the code's reduction is the transform's reduction |
| KYDigramIndex.AgreePlain | src/kygrammar.cpp:1353-1384 | when neither side reduces (an empty root, nothing found, or a triple) both append the symbol alone |
| KYDigramIndex.AgreeReduced | src/kygrammar.cpp:1385-1446 | when the index names the occurrence, Rule 2 or 3 gives the same grammar on both sides |
| KYDigramTrace.TraceToState8 | src/kygrammar.cpp:1304-1531 | on c a a a c a b a a, the code and the transform run the first eight appends to the same grammar, State8 |
| KYDigramTrace.PairAt8 | src/kygrammar.cpp:1376-1384 | after eight appends the root holds a a at position 1, which the search finds and the index does not |
| KYDigramTrace.IndexLosesPair | src/kygrammar.cpp:1369-1384 | the ninth append reduces in the transform (rule 2 = a a) but not in the code, whose index lost the pair |
| XmlAdaptiveNack.NackSymbols | src/xmladaptivemodel.cpp:1521-1860 | after the prolog, a NACK symbol enters the NACK state and the code that follows is read as n by the corrected decoder |
| XmlAdaptiveNack.ClueAsWrittenMisread | src/xmladaptivemodel.cpp:1521-1536 | as written, clue edge 55, sent as NACK 0x00 0xC0, is read back as clue edge 1 |
| XmlAdaptiveAgreement.FreshStarts | src/xmladaptivemodel.cpp:236-316 | the constructor's encoder is valid, has written nothing and opened no element |
| XmlAdaptiveAgreement.StartedIdle | src/xmladaptivemodel.cpp:1413-1417 | the decoder after its first allocation is idle in the prolog, outside the doctype, having emitted nothing |
| XmlAdaptiveAgreement.EmptyCommentCloseAsWritten | src/xmladaptivemodel.cpp:2897-2909 | as written, the EndOfBlock of an empty comment only clears the buffer: the decoder stays in the Default state |
| XmlAdaptiveAgreement.CommentCloseAsWritten | src/xmladaptivemodel.cpp:2897-2909 | as written, a comment's EndOfBlock hands on the buffer read as a C string and the decoder stays in the Default state |
| XmlAdaptiveAgreement.StaleRead | src/xmladaptivemodel.cpp:2897-2909 | the comment's bytes in the buffer, with no terminator written after them, read as a C string up to the next stale zero |
| XmlAdaptiveAgreement.AdaptiveCommentOverRead | src/xmladaptivemodel.cpp:2897-2909 | as written, a comment of the prolog comes back as its bytes followed by the stale bytes of the buffer up to the next zero |
| XmlAdaptiveAgreement.CommentHiAsWritten | src/xmladaptivemodel.cpp:2897-2909 | as written, the comment "hi" over the stale bytes "l" and 0 comes back as "hil" |
| XmlAdaptiveAgreement.PrologCommentAsWritten | src/xmladaptivemodel.cpp:2897-2909 | as written, after an empty comment the decoder stays in the Default state, so the Doctype symbol that follows is stored as data and no doctype opens |
| XmlAdaptiveAgreement.PrologCommentFixed | src/xmladaptivemodel.cpp:2897-2909 | in the corrected decoder the same Doctype symbol opens the doctype |
| KYDigramIndex.Remove | src/kygrammar.cpp:99-120 | DIGRAM_REMOVE keeps the set of symbols that have a list |
| KYDigramIndex.Change | src/kygrammar.cpp:165-185 | DIGRAM_CHANGE keeps the set of symbols that have a list |
| KYDigramTrace.RunAt8 | src/kygrammar.cpp:1304-1531 | from State8, the ninth symbol takes the code to State9AsWritten and the transform to Transform9 |
| KYDigramTrace.NinthRules | src/kygrammar.cpp:1385-1398 | as written the ninth symbol only extends the root, to V1 a a V1 b a a; the transform creates rule 2 = a a, with root V1 V2 V1 b V2 |

## Left out

- HashTables: `clear`, which only the destructor calls, and the deletion of items' data under autoDelete are not modelled; releasing memory leaves nothing the model can observe.
- HashTables: only the key types the core instantiates, `unsigned long` numbers and XmlChar strings, are modelled; the `HashTableHash` operators for `char`, `int`, `long` and their unsigned forms are not.
- Queues, Stacks, Lists: deleting the data of removed items under autoDelete is not modelled (memory release); `autoDelete` is kept as a flag.
- FibTool: the numbers are modelled, not their printed text; Python 2's repr of a long integer, which appends 'L' once a value no longer fits a machine int, is not part of this model.
- FibTool: the arguments are integers; the script's `eval` of them is not modelled.
- Summary: the directory listing and file sizes are an input map; the ratios are exact reals rather than Python floats, and the column formatting is not modelled.
- CommandLine: file existence checks, the overwrite prompt, removal of files, exit codes, and the usage, version and licence texts are not modelled (I/O); the compression and decompression themselves are calls into the codec, which is not part of this model.
- Funnels: a receiver that raises an exception while data is handed to it is not modelled.
- ArithCoding: the 64-bit wrap-around of the decoder's registers on corrupt input is not modelled: the registers are unbounded integers, and the contracts hold for the input the encoder writes.
- ArithCoding: the `int` overflow of `roundup` when finishEncode tries nbits = 1 is not modelled; the model computes the value the code evidently intends.
- MessageRoundTrip: proved for a first message written to an empty output device and read from an input that holds just its bytes, with the decoder given the intervals that were encoded; it does not cover finishDecode, later messages, which start from the excess bits and UNGET_BIT, or a model's lookup from target to symbol.
- ArithCoding: the MULT_DIV and non-FRUGAL_BITS variants, which the build switches off, are not modelled; the input and output devices are byte sequences, and registers the code leaves uninitialised start at 0.
- Contexts, ContextObject: a failing `realloc` (NoMemory) is not modelled; reallocation always succeeds.
- KYGrammars: the FATAL "Size of the rule stack exceeded!" of eatData (src/kygrammar.cpp:1033 and 1044) is not modelled: the model tests every rule and keeps no rule stack.
- KYGrammars: the FATALs when `context->encode` answers NotKnown (src/kygrammar.cpp:1485 and 1499) are not modelled: the context is represented by the calls made on it, and its answers are not part of this model.
- KYGrammars: appendToRootRule's set-up, createDefaultTextCodec and setAlphabetBaseSize on a context not yet initialised (src/kygrammar.cpp:1313-1326), is not modelled: the text codec and the context's initialisation belong to other classes.
- KYGrammars: the `refCount` of rules and the `representedBy` lists of the digram nodes are not modelled; the rule uses are computed from the right sides.
- FindDigramIn: searches the right sides, the occurrence the transform is defined by; the code takes it from its digram index, which can lose a pair (see Findings, src/kygrammar.cpp:1369-1384), so on such inputs the code does not find what this member finds.
- ReduceNone: appends plainly only when the right sides hold no earlier occurrence; the code also appends plainly when its index has lost the pair (Findings).
- ReduceOnce: applies Reduction Rule 2 or 3 whenever the pair occurs earlier; the code only when its index still holds the pair (Findings).
- ReduceMerge: like ReduceOnce, follows the right sides, not the code's index (Findings).
- ReduceSpec: is proved of the reduction the transform defines; KYDigramIndex.ReduceAsWrittenAgrees shows the code performs the same reduction wherever its index names the occurrence, and KYDigramTrace.IndexLosesPair an input where it does not.
- AppendToRootRule: performs KYGrammarObject's value-level append, which follows the right sides; the code's index lookup differs on the inputs of Findings.
- AppendToRootRuleSpec: the value-level appendToRootRule finds the repeated pair by searching the right sides, not through the digram index, so it states the Kieffer–Yang transform; the code as written loses a pair on the input of Findings (src/kygrammar.cpp:1369-1384), where it appends plainly instead.
- PushAndReduce: the same gap as AppendToRootRule.
- ReducePushed: the same gap as AppendToRootRule.
- ReduceFound: the same gap as AppendToRootRule.
- ReduceAndRecord: the same gap as AppendToRootRule.
- EatData: the unforced mode tests every rule, as the forced mode does; the code draws its unforced candidates from the digram index and its representedBy lists, so the two agree only where the index names every rule that could match.
- EatDataOf: the value-level eatData tests every rule in its unforced mode as in the forced one, rather than only the candidates the digram index and the representedBy lists offer, and each symbol it takes is appended by the value-level append that AppendToRootRuleSpec describes, so it inherits that line's gap as well.
- KYDigramIndex: the index is modelled on values (lists of entries per symbol), not as the hash tables and linked lists the code updates in place; the eatData candidate lists drawn from it are not modelled.
- XmlSimpleEncoding, XmlSimpleDecoding: SAX calls are the trace `emitted`; the test of SAFE_CALL_EMITTER for a missing emitter is not modelled, so the decoder always has one.
- SessionRoundTrip: the round trip is proved for documents whose names are XML names, whose text contains no structural symbol, whose strings the decoder keeps whole in its buffer, whose comments and processing-instruction targets are not null, and whose ids stay inside the Fibonacci table; other input is outside what the code round-trips or what the model promises.
- DocumentRoundTrip: the same restrictions as SessionRoundTrip.
- XmlAdaptiveEncoding, XmlAdaptiveDecoding: the adaptive model is modelled on values, as functions from the state before an event or symbol to the state after it, and not as a class; what a class would add, updates in place of the fields, is not captured.
- XmlAdaptiveDecoding: where receiveData continues in the element models, the replay of predicted nodes after a clue edge, the move along a different edge and the choice of the modeler of a new or known element, the model stops with the decoder handed over (`Handed`) or records the replay; the decoding of element structure that follows is not modelled.
- PrologRoundTrip: the adaptive round trip is proved for the prolog (declarations, default data, comments, processing instructions) and for character runs (RunRead); a round trip through the element structure is not, because the decoder's part of it lives in the element models above.
- PIRead: proved of the corrected decoder only, and processing instructions with a null target are not modelled.

## Findings

| source | as written | input that shows it | evidently intended | confidence | as-written member | corrected member |
|---|---|---|---|---|---|---|
| src/fibonacci.cpp:169-200 | decodeFromBuffer misreads the byte that encodeToBuffer writes for 2 | the number 2, written as the byte 0x60, is read back as 1 | every number encodeToBuffer writes is read back as itself | not executed | Fibonacci.AsWrittenMisreadsTwo | Fibonacci.DecodeFromBufferFixed |
| src/list.h:186-214 | insert with no current item on a non-empty list links the new node before the first one but leaves firstNode_ unchanged | inserting into a one-item list whose cursor is null | the new item becomes the first item | not executed | Lists.InsertAsWrittenOrphans | Lists.List.Insert |
| src/list.h:301-328 | getFirst never updates lastNode_, which keeps naming the removed node when the only item is taken | getFirst on a one-item list | the list is left empty with no last node | not executed | Lists.List.GetFirstAsWritten | Lists.List.GetFirst |
| src/xmlchar.cpp:249-276 | the bounded comparison answers "shorter" when exactly one string ends at index n | "a" against "ab" with n = 1 gives -1 | strings whose first n characters agree compare equal | not executed | XmlChar.NCompareAsWrittenDiffers | XmlChar.NCompareZeroIff |
| src/xmlcodec.cpp:407 | the decoder's funnel is built with its size and immediacy arguments swapped | FunnelDevice(xmlModel, 4096, true) gives an immediate funnel of size 1, which refuses any write of two bytes | an immediate funnel of 4096 bytes | not executed | Funnels.DecoderConfigAsWrittenRefuses | Funnels.DecoderConfigDelivers |
| src/textcodec.cpp:311-340 | getMIB spells the CP and KOI8 names with '_' while the codec table lists them with '-' | the names "CP-1250" and "KOI8-R" raise UnknownEncoding | every name of the table gives its MIB number | not executed | TextCodecs.GetMIBAsWrittenMisses | TextCodecs.GetMIBNameOf |
| src/main.cpp:200-215 | testFileNameSuffix has no length check and reads before the start of a name that is a tail of the suffix | the file name "e" against the suffix ".e" | a suffix longer than the name does not match | not executed | CommandLine.TestFileNameSuffixAsWritten | CommandLine.TestFileNameSuffix |
| tools/summary.py:40-46 | the guard tests the length of a one-element list | a directory with no complete group of files fails at complete_files.keys()[0] | "No files found" is printed | not executed | Summary.HeaderAsWrittenFails | Summary.HeaderReportsEmpty |
| src/xmlsimplemodel.cpp:1291-1314 | when the comment buffer fills at 1024 bytes, the full buffer is handed to comment() with no terminating zero (buffer[1024] lies past the array), so the call reads past the array | a comment of 1024 bytes | each full buffer is handed on as a terminated string, so long comments arrive in pieces, as character data does | not executed | XmlSimpleRoundTrip.CommentOverReadAsWritten | XmlSimpleRoundTrip.CommentFixed |
| src/xmlsimplemodel.cpp:956-978 | inside a CDATA section the CDATA symbol ends the section only when data is buffered | the symbols CDATA, CDATA of an empty section leave the section open | an empty section is started and ended | not executed | XmlSimpleRoundTrip.EmptyCDATAAsWritten | XmlSimpleRoundTrip.EmptyCDATAFixed |
| src/xmladaptivemodel.cpp:2897-2909 | no zero is written at buffer[bufferLength] before comment(userData, buffer), and RESET_BUFFER clears only buffer[0], so the comment runs on into the stale bytes an earlier string left in the buffer | the comment "hi" written over the stale bytes "l" and 0 comes back as "hil" | the comment ends at its own last byte | not executed | XmlAdaptiveAgreement.AdaptiveCommentOverRead | XmlAdaptiveAgreement.CommentRead |
| src/xmladaptivemodel.cpp:2897-2909 | the comment's EndOfBlock clears inComment but never resets the state, so the decoder stays in the Default state and a Doctype symbol that follows is stored as data | the events Default, Comment, EndOfBlock, Doctype | the decoder returns to the None state and the Doctype symbol opens the doctype | not executed | XmlAdaptiveAgreement.PrologCommentAsWritten | XmlAdaptiveAgreement.PrologCommentFixed |
| src/xmladaptivemodel.cpp:1521-1536 | a clue whose Fibonacci code holds a zero byte is taken for the end of the NACK | the clue 55, written as NACK 0x00 0xC0, is read as 1 | every clue the encoder writes is read back | not executed | XmlAdaptiveNack.ClueAsWrittenMisread | XmlAdaptiveNack.ClueRead |
| src/kygrammar.cpp:1369-1384 | the digram index can lose a pair that still occurs in the right sides, so a repetition goes unreduced | the input c a a a c a b a a | every repeated pair is reduced, as the Kieffer–Yang transform defines | not executed | KYDigramTrace.IndexLosesPair | KYGrammars.ReduceSpec |
