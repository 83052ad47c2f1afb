# A verified model of ipop-tap's data structures, JSON library, packet rewriting and queue

ipop-tap is the packet module of a user-level VPN. Under its peer indexes lies khash, an open-addressing
hash table; its configuration goes through jansson, a JSON library with its own hash table, reference counts,
parser and printer; it rewrites addresses and Internet checksums of tunnelled packets; and its samples pass
packets between threads through a blocking FIFO. This project models these parts in Dafny, in the form the C code
has (arrays, linked nodes and counters changed in place, loops where the source loops), and proves what they
are for.

| files | what they model |
|---|---|
| `KhashFlags`, `KhashProbe`, `KhashModel`, `KhashRehash`, `Khash`, `KhashRun` | khash: two flag bits per bucket packed in 32-bit words, the probe sequence, the invariant that ties flags, keys and values to a finite map, the kick-out rehash inside one key and one value array, the table, whole runs and walks over buckets |
| `HashList`, `HashSegments`, `HashTable` | jansson's hash table: one circular list of all pairs, buckets that are stretches of it, and the table |
| `Utf8`, `Stream`, `JsonNumber`, `JsonString`, `JsonText`, `JsonParse`, `JsonAbort`, `Lexer`, `Parser` | UTF-8; the input stream with push-back; tokens and the parser, first as functions on the bytes still to come, then as methods on the lexer's state that refine them; when a text stops the process |
| `JsonGrammar`, `JsonDerive` | the grammar of RFC 8259 as syntax trees with their texts and values, and the proof that the parser takes exactly these |
| `JsonReal` | the value of a number, and which are too large |
| `PrintString`, `JsonGraph`, `Printer`, `JsonDumps` | the printer, on value graphs that may share nodes and have cycles |
| `JsonLayout`, `JsonOrder` | what is printed, as a syntax tree: blanks, lines, escapes, and the order of members |
| `JsonRoundTrip`, `JsonValid` | loading what was dumped, and dumping what was loaded |
| `JsonStore`, `JsonReach`, `JsonOwnership`, `JsonObjects`, `JsonGarbage`, `JsonArray`, `JsonEqual` | reference counts, what can be reached and who owns what, the growing array, comparison and deep copies |
| `Checksum` | header translation and checksums |
| `FifoRun`, `Fifo` | the blocking FIFO: a state machine of two threads, and the ring that refines it |
| `Peerlist` | the peer indexes, address assignment, and the broadcast loops |
| `Bytes`, `Wrappers` | bytes, characters and options used by the others |

The main theorems:

* `Khash.Table.Resize` (growing, shrinking or same size) keeps the map exactly and leaves no tombstone, although it
  rehashes inside the arrays it reads from; `KhashRun.PerformAll` states that every run of stores, deletions,
  clears and resizes leaves a table that stands for the map the operations make.
* `HashTable.Hashtable` refines a finite map through a relinking rehash, and its iteration meets each pair once.
* `JsonDumps.Dumps` fails exactly when a cycle or an invalid string can be reached, and `JsonDumps.DumpsLoads` says
  that what it prints otherwise loads as the same value, under every mix of flags, if and only if all keys that can be
  reached are valid; `JsonValid.Reload` goes the other way round. It also says, by the grammar, what the text looks like
  under each flag.
* `Parser.Loads` gives a value exactly for the texts that stand for it in the grammar of RFC 8259
  (`JsonDerive.ParsedExactly`), with the deviations of the code stated in the grammar.
* `JsonStore`, `JsonReach` and `JsonGarbage`: counts always equal the references held outside and inside; containers
  may be changed through borrowed references as long as they can be reached from what is held; and dropping a
  reference frees exactly what cannot be reached any more, if and only if all cycles can still be reached.
* `JsonEqual.Equal` decides equality of meaning, and `JsonEqual.DeepCopy` shares no array, object or string.
* `Checksum.TranslateHeaders`: both checksums verify afterwards, over pseudo header and segment, for odd lengths too.
* `FifoRun.InOrder` and `FifoRun.NoneLost`: no packet is lost, doubled or overtaken; `FifoRun.DeadlockExactly`: both threads can end up waiting only if the queue has size 0; `FifoRun.ResetExactly`: when
  a reset does no harm.
* `Peerlist`: all three indexes agree on every peer, and broadcasts reach each peer exactly once.

Where the code does not do what one would expect, the model keeps the code's behaviour and a lemma gives the
exact condition:

* The check of hexadecimal digits behind `\u` never fails (`l_isxdigit` holds of every character), so letters that
  are no digits are accepted and other characters run into an assertion: `JsonString.ScannedGrammar`,
  `JsonString.NonHexAccepted`. `JsonString.DecodeExactly` says for which literals the assertion fails, and
  `JsonAbort.LoadsAbortsExactly` for which texts `json_loads` gets to such a literal; `JsonString.NonAlnumAborts` and
  `JsonAbort.StopsInArray` are inputs.
* `json_array_remove` moves one element too many, and reads behind the table exactly when the array is full:
  `JsonArray.JsonArray.Remove`.
* `json_object_update` walks the other object while it sets what it finds there, and a value that is replaced may be that
  object: it is freed and walked on. `JsonObjects.ObjectUpdate` says exactly when; `JsonObjects.UpdateFromInside` is the
  input.
* `do_dump` ignores that a key could not be printed: the text of a key that is not UTF-8 has no closing quote
  (`Printer.DumpKey`, with the input `JsonDumps.BadKeyDangles`), and the text loads as the value again exactly if there
  is no such key (`JsonDumps.DumpsLoads`).
* On coming back to a value that is being printed, `do_dump` clears that value's mark before the outer call does:
  marks are kept on success, and after a failure there are at most fewer (`Printer.DoDump`).
* `peerlist_add` with a key that is already indexed loses the peer (`Peerlist.AddIndex`); addresses differ exactly up
  to 255 peers (`Peerlist.AddressesDiffer`).
* A queue of size 0 deadlocks; the reader must not be woken without a signal; `BIO_CTRL_RESET` forgets a waiting
  writer (`FifoRun.DeadlockExactly`, `FifoRun.SpuriousReadBreaks`, `FifoRun.ResetExactly`).
* The test for the first fragment of a UDP packet misses offsets that are multiples of 512
  (`Checksum.FirstFragmentTest`). For TCP there is none: with a header of twenty bytes, what is rewritten is the TCP
  checksum exactly in the first fragment (`Checksum.TcpFieldExactly`, with the input `Checksum.LaterFragmentRewritten`).

## Model

| member | source | states |
|---|---|---|
| KhashFlags.ReadCell | lib/klib/khash.h:155-157 | the shifted and masked flag bits of a bucket, read from the packed word, are the bucket's two flags |
| KhashFlags.MarkDeleted | lib/klib/khash.h:161-161 | setting the deleted bit changes that flag of that bucket and no flag of any other bucket |
| KhashFlags.MarkOccupied | lib/klib/khash.h:159-159 | clearing the empty bit makes an empty bucket occupied in the new flags and touches no other bucket |
| KhashFlags.MarkLive | lib/klib/khash.h:160-160 | clearing both bits makes a bucket live and touches no other bucket |
| KhashFlags.FillEmpty | lib/klib/khash.h:213-219 | words of 0xaaaaaaaa say of every bucket that it is empty and not deleted |
| KhashFlags.FieldsDisjoint | lib/klib/khash.h:155-161 | the two-bit fields of different buckets of one word do not overlap |
| KhashProbe.ProbeStep | lib/klib/khash.h:228-228 | adding the growing step to the current bucket, masked, gives the next bucket of the closed form (start plus a triangular number) |
| KhashProbe.ProbeInjective | lib/klib/khash.h:223-231 | with 2^k buckets no bucket is met twice within the first 2^k probes |
| KhashProbe.ProbeCovers | lib/klib/khash.h:223-231 | every one of the 2^k buckets is met within the first 2^k probes |
| KhashProbe.FirstReturn | lib/klib/khash.h:226-229 | the first return to the starting bucket is at probe 2^(k+1)-1, and not earlier |
| KhashProbe.KRoundUp32Exact | lib/klib/khash.h:166-166 | kroundup32, in 32-bit words, gives the least power of two that is not less than its argument, from 1 to 2^31 |
| KhashProbe.KRoundUp32Wraps | lib/klib/khash.h:166-166 | for 0 and beyond 2^31 it gives 0 |
| KhashProbe.CapacityIs | lib/klib/khash.h:239-240 | the capacity the model resizes to is that power of two, and no fewer than four buckets |
| KhashProbe.UpperBoundFacts | lib/klib/khash.h:240-240 | the load bound is more than half and less than all of the buckets, and grows with doubling |
| KhashProbe.UpperBoundRounds | lib/klib/khash.h:293-293 | the load bound is 0.77 of the number of buckets, rounded |
| KhashProbe.NextCapacity | lib/klib/khash.h:300-307 | a request of one less keeps the capacity, a request of one more doubles it |
| KhashModel.SearchMiss | lib/klib/khash.h:227-231 | a search that has passed non-matching buckets up to an empty one proves that the key is not in the map |
| KhashModel.SizeIsCardinality | lib/klib/khash.h:186-186 | the number of live buckets is the number of keys of the map |
| KhashModel.SoundInsert | lib/klib/khash.h:325-335 | putting a new key into the final empty bucket or into a tombstone keeps the invariant, with the counters the code keeps |
| KhashModel.SoundDelete | lib/klib/khash.h:339-345 | a tombstone in place of a live bucket keeps the invariant and every other key reachable |
| KhashModel.SoundDead | src/peerlist.c:264-267 | assigning the value of a bucket that is not live changes nothing the table stands for |
| KhashRehash.Begin | lib/klib/khash.h:234-256 | at the start all entries are in the old part and the new part is empty |
| KhashRehash.SlotsDisjoint | lib/klib/khash.h:257-282 | in every state of the rehash no bucket is live in the old table and occupied in the new one |
| KhashRehash.TakeUp | lib/klib/khash.h:258-265 | an entry taken into hand leaves the old part: old, new and in-hand entries still partition the map |
| KhashRehash.KickOut | lib/klib/khash.h:266-276 | writing over a live old entry puts that one in hand and the written one in the new part, keeping the partition |
| KhashRehash.Settle | lib/klib/khash.h:277-281 | writing to a bucket without a live old entry ends the chain with nothing in hand |
| KhashRehash.RoomLeft | lib/klib/khash.h:271-271 | while an entry is in hand the new flags have an empty bucket, so its search ends |
| KhashRehash.Finish | lib/klib/khash.h:257-292 | when no old bucket is live the new flags hold the whole map, and occupied buckets are exactly the live ones |
| Khash.FindEmpty | lib/klib/khash.h:268-271 | the search for an empty bucket ends, at a bucket reachable from the key's hash |
| Khash.Search | lib/klib/khash.h:223-231 | the loop of kh_get ends on the key or on an empty bucket, and the exit for a complete turn is never taken |
| Khash.SearchSite | lib/klib/khash.h:313-319 | the loop of kh_put does the same and remembers a tombstone on the way |
| Khash.FindSlot | lib/klib/khash.h:308-324 | kh_put chooses the key's bucket if there is one, else a reachable tombstone, else the final empty bucket |
| Khash.PlaceAt | lib/klib/khash.h:272-281 | one turn of the kick-out loop keeps the partition, and uses up an entry of the old part if it goes on |
| Khash.PlaceChain | lib/klib/khash.h:266-282 | the kick-out loop ends with nothing in hand |
| Khash.RehashAll | lib/klib/khash.h:257-285 | the in-place rehash ends, and the new flags hold exactly the old map |
| Khash.Table.constructor | lib/klib/khash.h:202-204 | a new table stands for the empty map |
| Khash.Table.Get | lib/klib/khash.h:220-233 | returns the bucket of the key with its value if the map has the key, and n_buckets otherwise |
| Khash.Table.Exist | lib/klib/khash.h:489-489 | says whether a bucket is live, and then its key and value are the map's |
| Khash.Table.Resize | lib/klib/khash.h:234-296 | the map is kept; unless the request is too small, n_buckets is the next power of two and n_occupied is the size |
| Khash.Table.MakeRoom | lib/klib/khash.h:300-308 | afterwards n_occupied is below upper_bound; the capacity is kept or doubled as the code decides |
| Khash.Table.Put | lib/klib/khash.h:297-338 | the key is live afterwards, the rest of the map unchanged; the return code says whether it was there, and is 1 exactly if n_occupied has grown without a rehash; after a rehash no tombstone is reused |
| Khash.Table.Choose | lib/klib/khash.h:309-337 | the search and the insertion without the resizing: with no tombstones the return code is never 2 |
| Khash.Table.Insert | lib/klib/khash.h:325-336 | size grows by one, n_occupied only if the bucket was empty |
| Khash.Table.Del | lib/klib/khash.h:339-345 | the key of a live bucket leaves the map; anything else changes nothing |
| Khash.Table.Clear | lib/klib/khash.h:213-219 | the map is empty afterwards, the capacity kept |
| Khash.Table.SetValue | lib/klib/khash.h:511-511 | assigning the value of a live bucket updates the map at its key only |
| KhashRun.Perform | lib/klib/khash.h:213-345 | each operation has the effect on the table that it has on a finite map |
| KhashRun.PerformAll | lib/klib/khash.h:213-345 | after any run the table stands for the map the operations make, and a lookup finds exactly what that map has |
| KhashRun.WalkMeetsAll | lib/klib/khash.h:548-556 | a walk over all buckets meets every key of the map exactly once |
| KhashRun.Advance | src/peerlist.c:484-490 | an iterator goes to the next live bucket, skipping nothing, or to the end |
| HashList.ListInsert | lib/jansson/hashtable.c:43-49 | the four pointer writes put a node in front of another in the ring, and keep the others' order |
| HashList.ListRemove | lib/jansson/hashtable.c:51-55 | the two pointer writes take a node out of the ring |
| HashSegments.SegmentsInsert | lib/jansson/hashtable.c:62-75 | buckets stay contiguous stretches when a pair is inserted at the front of its own |
| HashSegments.SegmentsRemove | lib/jansson/hashtable.c:131-139 | and when one is removed |
| HashSegments.RecordedRemove | lib/jansson/hashtable.c:131-138 | the four cases for first and last record the stretch that is left |
| HashTable.ComputeHash | lib/jansson/hashtable.c:21-35 | the loop computes the hash that the specification uses |
| HashTable.FindPair | lib/jansson/hashtable.c:90-113 | walking a bucket finds the pair with the key if and only if the bucket has it |
| HashTable.InsertToBucket | lib/jansson/hashtable.c:62-75 | the node joins its bucket and no other bucket changes |
| HashTable.RehashOne | lib/jansson/hashtable.c:184-191 | one turn of the rehash relinks one node; what is left of the old chain can still be walked |
| HashTable.RehashNodes | lib/jansson/hashtable.c:181-191 | the walk over the chain it rewrites ends, loses and doubles no pair, and makes every bucket a stretch again |
| HashTable.Hashtable.constructor | lib/jansson/hashtable.c:197-216 | a new table is empty, all buckets empty stretches |
| HashTable.Hashtable.DoRehash | lib/jansson/hashtable.c:162-194 | the map and the set of pairs are kept, with the next number of buckets |
| HashTable.Hashtable.Set | lib/jansson/hashtable.c:224-267 | the map is updated at the key, and exactly the value that was there is released; an old key keeps its pair and serial number, a new one gets a pair with the serial number passed |
| HashTable.Hashtable.Get | lib/jansson/hashtable.c:269-283 | returns the value of the map, or none |
| HashTable.Hashtable.Del | lib/jansson/hashtable.c:285-289 | the key leaves the map and its value is released, or the call fails and nothing changes |
| HashTable.Hashtable.Detach | lib/jansson/hashtable.c:116-146 | the pair leaves list and bucket, the other buckets stay as they were |
| HashTable.Hashtable.Clear | lib/jansson/hashtable.c:291-305 | the table is empty and every value has been released |
| HashTable.Hashtable.ReleaseAll | lib/jansson/hashtable.c:148-160 | the loop over the list releases every value once |
| HashTable.Hashtable.IterNext | lib/jansson/hashtable.c:328-334 | the next pair of the list, or the end |
| HashTable.Hashtable.IterateAll | lib/jansson/hashtable.c:307-334 | an iteration yields each key of the map once, with its value; their number is the size |
| Utf8.EncodeDecode | lib/jansson/utf.c:11-45 | the encoding of every scalar value is one character of the grammar and decodes to the value |
| Utf8.DecodeEncode | lib/jansson/utf.c:83-137 | every character of the grammar is the encoding of the scalar value it decodes to |
| Utf8.EncodingAscends | lib/jansson/utf.c:11-45 | encodings stand in the byte order of their code points, so there is no other encoding with the two round trips |
| Utf8.Encode | lib/jansson/utf.c:11-45 | writes that encoding, and fails exactly on values outside 0 to 0x10FFFF, leaving the buffer alone |
| Utf8.CheckFull | lib/jansson/utf.c:83-137 | accepts exactly sequences of two to four bytes that continue and have a value in range, whatever the first byte; where that announces the length, exactly the multi-byte characters of section 4 of RFC 3629, with their code point |
| Utf8.RangesAreGrammar | lib/jansson/utf.c:113-131 | rejecting overlong forms, surrogates and large values by the accumulated value is the grammar of RFC 3629 |
| Utf8.CheckString | lib/jansson/utf.c:165-190 | returns true exactly for sequences of characters of the grammar |
| Utf8.Iterate | lib/jansson/utf.c:139-163 | gives the first character's length and code point, or fails exactly if no character starts there |
| Utf8.EncodeAllIsUtf8 | lib/jansson/utf.c:165-190 | encodings of scalar values in a row are valid |
| Utf8.Utf8IsEncoded | lib/jansson/utf.c:165-190 | and every valid string is such a row |
| Stream.ValidPrefixAll | lib/jansson/load.c:142-203 | all of the input can be read if and only if it is valid UTF-8 |
| Stream.Stream.Fill | lib/jansson/load.c:147-187 | refilling the buffer changes neither the bytes still to come nor what is behind them; the stream ends in error exactly if they are followed by something invalid |
| Stream.Stream.Get | lib/jansson/load.c:142-203 | delivers the next byte, counting position, line and column |
| Stream.Stream.Unget | lib/jansson/load.c:205-221 | puts the byte back in front of those still to come, and takes position, line and column back |
| Stream.Stream.GetUnget | lib/jansson/load.c:142-221 | reading a character and pushing it back restores input, position, line and column |
| JsonNumber.ScanIsNumber | lib/jansson/load.c:452-545 | whatever is accepted is a number of section 6 of RFC 8259, an integer exactly if it has no fraction and no exponent, and the next byte does not continue it |
| JsonNumber.NumberScans | lib/jansson/load.c:452-545 | every number of that grammar, followed by something that does not continue it, is accepted as a whole |
| JsonNumber.DecimalScans | lib/jansson/dump.c:181-194 | what is printed for an integer is scanned as a whole, as an integer |
| JsonNumber.DecimalValue | lib/jansson/dump.c:181-194 | and has the integer's value |
| JsonNumber.RealScans | lib/jansson/dump.c:196-207 | the text of a real is scanned as a whole, as a real |
| JsonNumber.PowersOfTen | lib/jansson/strconv.c:54-74 | the text of a power of ten is a number, and is refused as an overflow exactly from 10 to the power of 309 on |
| JsonNumber.ScanStops | lib/jansson/load.c:452-545 | the scan stops where nothing continues the number |
| JsonReal.MagnitudeIs | lib/jansson/strconv.c:54-74 | what is compared with the range of a double is the number's value by its integer part, fraction and exponent |
| JsonReal.OverflowsExactly | lib/jansson/strconv.c:67-70 | a number is refused as an overflow exactly if its value is 2^1024 - 2^970 or more, from where rounding leaves the doubles |
| JsonString.HexSpellings | lib/jansson/load.c:268-289 | every spelling of a number by four hexadecimal digits, with letters of either case, is read as the number |
| JsonString.ScanWellScanned | lib/jansson/load.c:301-343 | the text in front of the quote that ends the scan consists of whole escapes and plain bytes |
| JsonString.DecodeFits | lib/jansson/load.c:345-437 | the decoded string never outgrows its text, so it fits the allocated buffer with its NUL |
| JsonString.ScannedGrammar | lib/jansson/load.c:324-334 | of the texts let through, those whose \u escapes have four real digits are the grammatical ones of section 7 of RFC 8259, and all of those are let through |
| JsonString.DecodeExactly | lib/jansson/load.c:268-437 | decoding fails the assertion exactly if a \u without four letters or digits comes before any \u that means no character (zero, or half a surrogate pair), and is refused exactly if it is the other way round |
| JsonString.NonHexAccepted | lib/jansson/load.c:39-40 | a concrete text with a letter that is no digit is accepted, as U+10000 |
| JsonString.NonAlnumAborts | lib/jansson/load.c:39-40 | a concrete text with another character fails the assertion |
| JsonAbort.LexAborts | lib/jansson/load.c:291-440 | a token runs into the assertion exactly if it is a terminated string literal of that kind |
| JsonAbort.LoadsAbortsExactly | lib/jansson/load.c:650-849 | json_loads runs into it exactly if, reading token by token, there is such a literal, and what stands in front of the first one is unfinished, or is finished while the end of the text is checked for |
| JsonAbort.StopsInArray | lib/jansson/load.c:723-761 | a concrete array stops the process, under all flags |
| Lexer.DecodeUnicodeEscape | lib/jansson/load.c:268-289 | gives the number that four letters or digits spell, in either case, and fails its assertion exactly if they spell none |
| Lexer.NextPiece | lib/jansson/load.c:357-434 | one turn of the decode loop writes the bytes of the next plain byte, escape or surrogate pair, with the error cases of the specification |
| Lexer.DecodeText | lib/jansson/load.c:345-437 | the decode loop into a buffer of saved_text.length + 1 bytes stays inside it and gives the specified string |
| Lexer.Lexer.Get | lib/jansson/load.c:224-227 | lex_get delivers the next character, which may then be pushed back |
| Lexer.Lexer.GetSave | lib/jansson/load.c:234-240 | lex_get_save saves what it reads, except the end marks |
| Lexer.Lexer.UngetUnsave | lib/jansson/load.c:247-255 | lex_unget_unsave undoes lex_get_save |
| Lexer.Lexer.ScanText | lib/jansson/load.c:299-343 | the first loop succeeds exactly if the specification finds a closing quote, and has saved the text up to it |
| Lexer.Lexer.ScanString | lib/jansson/load.c:291-444 | the token and the bytes left are those of the specification |
| Lexer.Lexer.ScanNumber | lib/jansson/load.c:452-545 | the same for numbers, with the range checks of integers and reals; on success the saved text is a number lexeme and the stream resumes just behind it |
| Lexer.Lexer.Scan | lib/jansson/load.c:547-615 | lex_scan refines the specification of tokens |
| Parser.ParseOne | lib/jansson/load.c:763-816 | parse_value gives the specified value and leaves the specified input, fails exactly when the specification does, and does not return exactly when that stops at the failing assertion |
| Parser.ParseMap | lib/jansson/load.c:650-721 | the same for parse_object, with JSON_REJECT_DUPLICATES; the last of equal keys wins otherwise |
| Parser.ParseList | lib/jansson/load.c:723-761 | the same for parse_array |
| Parser.ParseText | lib/jansson/load.c:818-849 | the same for parse_json, with JSON_DECODE_ANY and JSON_DISABLE_EOF_CHECK |
| Parser.Loads | lib/jansson/load.c:871-897 | json_loads: on any C string, valid UTF-8 or not, gives a value exactly if the text stands for it in the grammar, with the flags; it does not return exactly under the condition of `LoadsAbortsExactly`, and gives NULL otherwise |
| JsonDerive.SurrogatesRead | lib/jansson/load.c:371-386 | two surrogate escapes are read as the code point they make up (section 2 of RFC 2781) |
| JsonDerive.DecodedUnits | lib/jansson/load.c:345-437 | a literal that decodes is a row of plain bytes and escapes of section 7 of RFC 8259, and decodes to what they stand for |
| JsonDerive.UnitsRead | lib/jansson/load.c:345-437 | and every such row decodes to that |
| JsonDerive.ValueDerives | lib/jansson/load.c:650-816 | whatever the parser takes for a value is the text of a syntax tree of the grammar behind blanks, and is given that tree's value |
| JsonDerive.TextParses | lib/jansson/load.c:650-816 | the text of every correct tree, followed by something that does not continue it, is taken for the tree's value |
| JsonDerive.ParsedExactly | lib/jansson/load.c:818-849 | parse_json gives a value exactly for the texts that stand for it, with JSON_REJECT_DUPLICATES, JSON_DECODE_ANY and JSON_DISABLE_EOF_CHECK; the last of equal keys counts |
| JsonLayout.DumpPrints | lib/jansson/dump.c:28-62 | the printed text is that of a syntax tree with just the lines, indentation and spaces that JSON_INDENT and JSON_COMPACT ask for, and with no escape but those needed, in their shortest form and lower case |
| JsonLayout.EscapeDecode | lib/jansson/dump.c:65-150 | every valid string without NUL is decoded again from its escaped form, ASCII-only or not |
| JsonLayout.StringRoundTrip | lib/jansson/dump.c:65-150 | and the scan finds exactly the quote that the printer wrote behind it |
| JsonLayout.ParseDump | lib/jansson/dump.c:166-401 | the printed text of any well-formed tree with valid keys, followed by something that ends a value, parses to what the tree means and leaves what follows |
| JsonOrder.LessExactly | lib/jansson/dump.c:152-156 | strcmp: the keys agree up to where the first ends, or has the smaller byte |
| JsonOrder.ArrangeAscends | lib/jansson/dump.c:287-349 | at every level, the members printed are those of the object, by ascending keys with JSON_SORT_KEYS, and by ascending serial numbers with JSON_PRESERVE_ORDER alone |
| JsonOrder.DumpTextOrdered | lib/jansson/dump.c:287-349 | so the text has the layout for the flags, and the members in that order |
| JsonRoundTrip.SortedIsSorting | lib/jansson/dump.c:152-164 | sorting by key or by serial number gives a sorted permutation |
| JsonRoundTrip.LessTotal | lib/jansson/dump.c:152-156 | strcmp orders keys totally |
| JsonRoundTrip.ArrangeKeeps | lib/jansson/dump.c:287-349 | putting members in printing order at every level changes neither well-formedness nor meaning |
| JsonRoundTrip.GoodMeaning | lib/jansson/dump.c:330-332 | a tree has only valid keys exactly if the value it means has |
| JsonRoundTrip.LoadDump | lib/jansson/dump.c:403-447 | with valid keys, loading the text of a value gives an equal value, under every mix of indent, compact, ensure-ascii, sort-keys and preserve-order, and of load flags |
| JsonValid.DumpTextValid | lib/jansson/dump.c:403-418 | the text is UTF-8 without NUL, even where a key is not, and with JSON_ENSURE_ASCII it is ASCII |
| JsonValid.LoadsDumps | lib/jansson/load.c:871-897 | the round trip from the stream's view of the input on |
| JsonValid.LoadsExactly | lib/jansson/load.c:871-897 | the text of a tree loads as what the tree means if and only if all its keys are valid |
| JsonValid.DecodeValid | lib/jansson/load.c:345-440 | whatever string literal is accepted, the string made of it is UTF-8 without NUL |
| JsonValid.LoadedIsGood | lib/jansson/load.c:818-849 | whatever the input, a loaded value has only valid strings and keys and 64-bit integers |
| JsonValid.Reload | lib/jansson/load.c:818-849 | a loaded value can be dumped under any flags, and loading that gives the value again; a real keeps its text |
| PrintString.DumpString | lib/jansson/dump.c:65-150 | fails exactly on strings that are not UTF-8; otherwise writes the quoted, escaped string, and in failing the opening quote and the escaped form up to the last character that had to be escaped |
| PrintString.SkipCopied | lib/jansson/dump.c:81-100 | the inner loop stops exactly at the first character that must be escaped, at the end, or at something invalid |
| JsonString.LastEscapeExactly | lib/jansson/dump.c:65-150 | of an invalid string, what has been written ends behind the last character that must be escaped, of the valid ones in front |
| JsonGraph.TreeExists | lib/jansson/dump.c:217-258 | a value unfolds to a tree exactly if no path from it comes back to a node it has been through or ends in an invalid string; sharing does no harm |
| Printer.DumpIndent | lib/jansson/dump.c:43-63 | writes a newline and indentation, a space, or nothing |
| Printer.DoDump | lib/jansson/dump.c:166-401 | terminates on every graph; unless the callback failed, it succeeds exactly if the value has a tree, and then has written its text, whatever the keys; marks are kept on success and never added |
| Printer.DumpContainer | lib/jansson/dump.c:217-258 | the same for arrays and objects, marked while their inside is printed |
| Printer.DumpArray | lib/jansson/dump.c:225-252 | elements, commas and indentation |
| Printer.DumpObject | lib/jansson/dump.c:276-387 | members in table, key or serial order |
| Printer.DumpKey | lib/jansson/dump.c:330-332 | what can be written of the key, and then the separator; that the key was invalid is not noticed |
| JsonDumps.TreeArranged | lib/jansson/dump.c:287-349 | sorting the members of a graph and unfolding it gives the unfolded tree with its members sorted |
| JsonDumps.TreeWellFormed | lib/jansson/dump.c:166-401 | the tree of a sound graph is well-formed, so its text is specified |
| JsonDumps.TreeKeys | lib/jansson/dump.c:276-387 | its keys are valid exactly if those of all objects on paths from the value are |
| JsonDumps.DumpCallback | lib/jansson/dump.c:439-447 | whatever the callback does, no mark is left; unless it failed, success is decided by reachability of a cycle or an invalid string, and then the text of the tree has been written |
| JsonDumps.Dumps | lib/jansson/dump.c:403-418 | NULL exactly if a cycle or an invalid string can be reached, or the value is no container and JSON_ENCODE_ANY is off; else the text of its tree, its members in the order the flags ask for, with their layout |
| JsonDumps.DumpsLoads | lib/jansson/dump.c:403-418 | loading what was dumped gives the value that was dumped if and only if all keys that can be reached are valid |
| JsonDumps.BadKeyDangles | lib/jansson/dump.c:330-332 | a concrete object with an invalid key: its text has a dangling quote and does not load |
| JsonStore.Store.Incref | lib/jansson/jansson.h:91-97 | one more reference held, one more counted |
| JsonStore.Store.Decref | lib/jansson/jansson.h:102-107 | one less; values are freed at most, those still live keep their contents, cycles stay, and the books stay balanced; it terminates |
| JsonStore.Store.Delete | lib/jansson/value.c:815-833 | everything inside loses one reference, the value itself is freed, and no cycle is |
| JsonOwnership.ArrayAppendNew | lib/jansson/value.c:426-449 | the reference passed is used up in every case; on success the array has one more element, else only values are freed |
| JsonOwnership.ArrayInsertNew | lib/jansson/value.c:451-489 | the same for insertion at an index |
| JsonOwnership.ArraySetNew | lib/jansson/value.c:358-382 | the same for replacing an element, whose reference is dropped, in an array the caller may only have borrowed |
| JsonOwnership.ArrayRemove | lib/jansson/value.c:491-508 | the element leaves the array and its reference is dropped; the array may be borrowed and is not freed |
| JsonOwnership.ArrayClear | lib/jansson/value.c:510-524 | the array is empty and all its references are dropped; the array may be borrowed and is not freed |
| JsonOwnership.ArrayExtend | lib/jansson/value.c:526-546 | the other array's elements are appended, counted once more each, and nothing is freed; both may be one array |
| JsonOwnership.New | lib/jansson/value.c:29-46 | a new value with one reference, nothing else changed |
| JsonObjects.ObjectSetNew | lib/jansson/value.c:76-97 | the reference passed is used up; on success the key has the value, and the value that was there has lost a reference; the object may be borrowed |
| JsonObjects.ObjectSet | lib/jansson/jansson.h:154-158 | the same, the caller keeping its reference |
| JsonObjects.ObjectDel | lib/jansson/value.c:110-119 | the key leaves the object and its value's reference is dropped; the object may be borrowed |
| JsonObjects.ObjectClear | lib/jansson/value.c:121-134 | the object is empty and all its references are dropped; it may be borrowed |
| JsonObjects.ObjectUpdate | lib/jansson/value.c:136-150 | all members of the other object are set, up to the first that is the object itself, where the call fails; both may be borrowed. The loop is left with a freed object to walk only if at some turn nobody can reach that object, and, where no cycle gets out of reach, exactly then |
| JsonObjects.OtherLivesExactly | lib/jansson/value.c:144-147 | after each turn, with no cycle left that nobody can get at, the other object is live exactly if it can be reached |
| JsonObjects.UpdateFromInside | lib/jansson/value.c:144-147 | a concrete object that is updated with its own member: all is well counted and reachable, and the member that is walked is freed |
| JsonObjects.OutlivesIf | lib/jansson/value.c:144-147 | the other object is not freed if it can be reached otherwise than through a member that is replaced |
| JsonObjects.UpdateIsUnion | lib/jansson/value.c:136-150 | the members then stand for the one map overridden by the other |
| JsonObjects.PutIsUpdate | lib/jansson/hashtable.c:242-263 | setting a key updates the map the members stand for, and keys stay unique |
| JsonObjects.PutKeepsPlaces | lib/jansson/hashtable.c:241-269 | keys that are there keep their serial numbers, a new key gets the object's |
| JsonObjects.WithoutIsRemoval | lib/jansson/hashtable.c:116-146 | deleting a key removes it from that map |
| JsonReach.ReachableLive | lib/jansson/jansson.h:102-107 | whatever can be reached from a reference that is held has not been freed |
| JsonReach.LeaksAreCycles | lib/jansson/jansson.h:102-107 | live values are exactly the reachable ones, if and only if no cycle is out of reach |
| JsonReach.ContainerLives | lib/jansson/value.c:379-380 | a container that changes and drops what it held is not freed by that if it can be reached from what is still held |
| JsonReach.ContainerLivesExactly | lib/jansson/value.c:499-504 | and, where no cycle is out of reach, only then |
| JsonGarbage.FreedExactly | lib/jansson/value.c:815-833 | when references have been dropped, a value is live exactly if it can be reached from what is still held, if and only if every cycle there was can be reached from that |
| JsonGarbage.DropExactly | lib/jansson/jansson.h:102-107 | that, for one json_decref of any value |
| JsonGarbage.DropAcyclic | lib/jansson/jansson.h:102-107 | with nothing leaked before, dropping a value that leads into no cycle frees exactly what can no longer be reached; other cycles do no harm |
| JsonGarbage.CyclesLeak | lib/jansson/jansson.h:102-107 | two arrays that hold each other outlive every reference to them |
| JsonArray.Move | lib/jansson/value.c:384-388 | memmove, overlapping or not; it reads behind the table exactly if its source range ends there |
| JsonArray.JsonArray.Grow | lib/jansson/value.c:397-424 | there is room afterwards, the new size is the one the code computes, and the contents are kept or the old table is returned |
| JsonArray.JsonArray.Append | lib/jansson/value.c:440-446 | the contents grow by the element |
| JsonArray.JsonArray.Insert | lib/jansson/value.c:463-486 | the element stands at the index, the others keep their order, in the old or a new table |
| JsonArray.JsonArray.Remove | lib/jansson/value.c:499-505 | the element is gone and the others keep their order; the table is overread if and only if it was full |
| JsonArray.JsonArray.Extend | lib/jansson/value.c:535-545 | the other contents stand behind, also for an array extended by itself |
| JsonArray.FullAfterEight | lib/jansson/value.c:305-324 | eight elements fill a new array, so the overread does happen |
| JsonEqual.MeansOne | lib/jansson/value.c:838-866 | a value graph means at most one value, so comparing an object with itself may be skipped |
| JsonEqual.MeansNoCycle | lib/jansson/value.c:838-866 | a value that means something leads into no cycle |
| JsonEqual.MeansExactly | lib/jansson/value.c:838-866 | a value means something exactly if no path from it comes back to a node it has been through: Equal and DeepCopy speak of all values without cycles |
| JsonEqual.TreeMeans | lib/jansson/dump.c:166-401 | what the printer unfolds a value to is what the value means |
| JsonEqual.IncludedIsEqual | lib/jansson/value.c:250-266 | equal sizes and one-sided inclusion are equality of maps |
| JsonEqual.Equal | lib/jansson/value.c:838-866 | true exactly if both mean the same |
| JsonEqual.ObjectEqual | lib/jansson/value.c:250-266 | the same for objects, by size and lookups in the second |
| JsonEqual.ArrayEqual | lib/jansson/value.c:548-568 | the same for arrays |
| JsonEqual.DeepCopy | lib/jansson/value.c:897-924 | a copy means the same, and everything in it is new except null, true and false |
| JsonEqual.CopyObject | lib/jansson/value.c:285-300 | the same for objects |
| JsonEqual.CopyArray | lib/jansson/value.c:585-598 | the same for arrays |
| JsonEqual.SharesNothing | lib/jansson/value.c:897-924 | on every path from a copy there are only new and simple values |
| JsonEqual.CopyAndCompare | lib/jansson/value.c:838-924 | json_equal of a value and its deep copy is true |
| Checksum.Fold | src/translator.c:79-81 | the folding loop ends at the closed form, the residue modulo 65535 |
| Checksum.ComplementFolds | src/translator.c:79-86 | adding the complement of a folded sum to the sum folds to all ones |
| Checksum.SumData | src/translator.c:73-77 | the summing loop adds all 16-bit words, an odd last byte padded, without overflow of an int |
| Checksum.UpdateChecksum | src/translator.c:53-89 | the field gets the complement of the folded sum over the buffer with the field cleared, for TCP with the twelve bytes of the pseudo header in front, and no other byte changes |
| Checksum.SumIs | src/translator.c:62-77 | what the two loops add up is the sum of the words of pseudo header (source, destination, zero, protocol, length) and segment (section 3.1 of RFC 793) |
| Checksum.WordsNumber | src/translator.c:73-81 | the sum of the 16-bit words has the residue modulo 65535 of the bytes as one number |
| Checksum.SumsToOnesIs | src/translator.c:79-81 | adding up to all ones, with carries added in and an odd byte padded, is to be a multiple of 65535 other than 0 |
| Checksum.StoredFolds | src/translator.c:53-89 | a field that is one of the words summed makes the whole sum fold to all ones (section 1 of RFC 1071) |
| Checksum.HeaderChecksum | src/translator.c:200-201 | the words of the IPv4 header add up to all ones (section 3.1 of RFC 791) |
| Checksum.TcpChecksum | src/translator.c:203-208 | the words of the twelve bytes of the pseudo header and of the segment add up to all ones, for every length that has the field in it, odd ones too (section 3.1 of RFC 793) |
| Checksum.TranslateHeaders | src/translator.c:186-216 | new source; new destination unless the old one is multicast or ends in 255; both sums right at the end, the TCP one over pseudo header and segment; UDP checksum cleared; and no other byte changed |
| Checksum.FirstFragmentTest | src/translator.c:209-209 | the test for the first fragment is wrong exactly for offsets that are positive multiples of 512 |
| Checksum.TcpFieldExactly | src/translator.c:203-208 | what is rewritten in a TCP packet is the TCP checksum exactly if the header is longer than twenty bytes by eight for each of at most two units of the fragment offset; with twenty bytes, exactly in the first fragment |
| Checksum.LaterFragmentRewritten | src/translator.c:206-207 | a concrete later fragment of which the payload is rewritten |
| FifoRun.InvStep | tests/bss_fifo.c:258-358 | every step keeps the queue within its size, in order, and the waiting threads consistent |
| FifoRun.InOrder | tests/bss_fifo.c:258-358 | in every run reads return what was queued, in order, each the longest beginning that fits the reader's buffer; no empty queue is read |
| FifoRun.NoneLost | tests/bss_fifo.c:313-358 | in every run the packets given to fifo_write are those that were queued, in order, and then the one of a writer that waits; only under droptail are those missing that met a full queue |
| FifoRun.DeadlockExactly | tests/bss_fifo.c:97-106 | both threads can be left waiting unsignalled if and only if the size is 0, whatever the threshold of a tenth |
| FifoRun.SpuriousReadBreaks | tests/bss_fifo.c:271-283 | a reader woken without a signal reads an empty queue, since its wait is no loop |
| FifoRun.ResetExactly | tests/bss_fifo.c:372-376 | after a reset no run reads an empty queue or leaves both threads waiting, exactly if no writer was waiting unsignalled and no reader was on its way |
| FifoRun.ResetInv | tests/bss_fifo.c:372-376 | the invariant of all runs is kept by a reset exactly then, or if the size is 0 |
| FifoRun.ResetDeadlocks | tests/bss_fifo.c:372-376 | after a reset under a waiting writer, the next read leaves both waiting |
| Fifo.Fifo.constructor | tests/bss_fifo.c:88-142 | the ring is empty, the threshold a tenth of the size, droptail off |
| Fifo.Fifo.TakeOut | tests/bss_fifo.c:294-304 | the oldest packet comes out, cut to the buffer; the writer is signalled exactly if it waits and enough is free |
| Fifo.Fifo.PutIn | tests/bss_fifo.c:334-355 | the packet joins the end whole, whatever size the slot's buffer had; a waiting reader is signalled |
| Fifo.Fifo.Read | tests/bss_fifo.c:258-308 | refines the reader's step |
| Fifo.Fifo.ReadWoken | tests/bss_fifo.c:280-308 | refines the reader's step after a signal |
| Fifo.Fifo.ReadTimeout | tests/bss_fifo.c:289-293 | a timed-out read leaves the queue as it is |
| Fifo.Fifo.Write | tests/bss_fifo.c:313-358 | refines the writer's step: dropped under droptail, waiting, or queued; the packet is in the queue exactly if there was room |
| Fifo.Fifo.WriteWoken | tests/bss_fifo.c:327-358 | refines the writer's step after a wake-up: it waits again, or the packet is queued and its length returned |
| Fifo.Fifo.Pending | tests/bss_fifo.c:392-401 | the sum of the lengths of all queued packets, round the end of the ring |
| Fifo.Fifo.Reset | tests/bss_fifo.c:372-376 | refines the reset of the state machine, and leaves a valid queue exactly under that condition |
| Peerlist.HexInjective | src/peerlist.c:83-98 | different identifiers have different keys |
| Peerlist.ConvertToHexString | src/peerlist.c:83-98 | writes two digits per byte and a NUL, or fails exactly if the room is too small |
| Peerlist.NthDiffer | src/peerlist.c:104-109 | the addresses counted up in the last byte differ for 256 steps and then repeat |
| Peerlist.NthAbove | src/peerlist.c:104-109 | the k-th of them is the local one with its last byte greater by k, modulo 256 |
| Peerlist.AddIndex | src/peerlist.c:255-268 | a new key is entered with its peer; a key that was there is lost |
| Peerlist.AddressesDiffer | src/peerlist.c:142-152 | assigned addresses differ from each other and from the local one exactly up to 255 peers |
| Peerlist.PeerList.constructor | src/peerlist.c:114-174 | after peerlist_init and peerlist_set_local there are no peers and the next address is the local one with its last byte one greater |
| Peerlist.PeerList.Add | src/peerlist.c:224-312 | the new peer gets the next address, the local one with its last byte greater by the number of peers, all earlier peers stay, and the three indexes hold exactly all peers |
| Peerlist.PeerList.GetById | src/peerlist.c:442-457 | finds the one peer with the identifier, or fails exactly if there is none |
| Peerlist.PeerList.GetByIpv4 | src/peerlist.c:474-511 | for a unicast address the one peer that has it, or the null peer; for the others the next peer of the walk |
| Peerlist.PeerList.GetByIpv6 | src/peerlist.c:531-565 | the same for IPv6 |
| Peerlist.PeerList.SendIpv4 | src/packetio.c:190-249 | a unicast packet is sent once, to the peer that has the address or the null peer; the others go to each peer exactly once, and the loop ends |
| Peerlist.PeerList.SendIpv6 | src/packetio.c:190-249 | the same for IPv6 |
| Peerlist.PeerList.SendToAll | src/packetio.c:119-134 | the walk over the identifier table reaches each peer exactly once and ends |

## Left out

- khash: `i & mask` is modelled as `i % n` for `n` a power of two; keys compare by equality, the hash is any total function, and the load factor 0.77 is the integer expression `(77 * n + 50) / 100`.
- khash: capacities above 2^31 buckets, where the 32-bit counters would wrap; `KhashRun.PerformAll` stops before them.
- Khash.Table.Resize: takes requests without bound, where the 32-bit argument ends and `kroundup32` wraps to 0 beyond 2^31; `KhashProbe.CapacityIs` says that up to there both give the same capacity.
- Hashtable.Set: needs a prime left in the table of bucket counts, as the source does; `json_decref` of a replaced or deleted value is returned as `released`, and the counting is in the store modules.
- Memory: allocation never fails. Out-of-memory branches, `strbuffer.c` and `memory.c` are not part of this model; buffers are byte sequences or arrays.
- Numbers: a real is the text it is printed as; `strtod` and `snprintf` are not part of this model, but for the test of `jsonp_strtod`: `strtod` overflows exactly from halfway between the greatest double and 2^1024 on, as rounding to nearest does. Whether it reports ERANGE for a result below the normal range is left to the C library (section 7.20.1.3 of ISO C99), and taken not to happen; where it does, `jsonp_strtod` refuses such numbers, too. `strtoll` is the decimal value with its range check.
- JsonEqual.Equal: reals are compared by the text they are printed as, so 0.0 and -0.0 differ here, which `json_equal` takes for equal.
- JsonValid.Reload: for reals it holds by construction, since a loaded real keeps the text it was read from, while the original prints the double again.
- Texts: `char` is signed and input has no NUL, as for `json_loads`; `json_loadb`, `json_loadf`, `json_load_file`, error messages and positions in them are left out. The failing assertion of the decoder is a token of its own, `TAborted`, and an outcome of its own, `Stopped`.
- Lexer: a value nested too deeply for the C stack is not modelled; recursion ends because the input shrinks.
- Printer: `qsort` is insertion sort, and in the sorted branch the member's value is taken from the sorted entry instead of looking its key up again, which is the same since keys are unique. The iteration order of an object is any fixed order of its members.
- Objects in the store: members are kept in some order with new keys at the end; how the hash table places them is in the HashTable module.
- Deletion: the references inside a value pass to the deleting code when its count reaches zero, and its cell is removed at the end. Where `json_array_set_new`, `json_array_remove` and `hashtable_set` drop an old value before they overwrite its slot, the model overwrites first; nothing reads the slot in between.
- Reference counts do not reach the largest `size_t`, which marks the static values.
- `json_object_update_existing`, `json_object_update_missing`, shallow copies, `json_pack` and `json_unpack`: more of the same, or argument scanning.
- Checksum.TcpChecksum: for frames shorter than 52 bytes the field is not part of what is summed, and only the other bytes are spoken of; a header length other than 20 bytes is not modelled, as in the source.
- Translation: `update_upnp` and `update_sip` (text patching), ARP replies, frame predicates and header copies.
- FIFO: one reading and one writing thread; the mutex makes each stretch of code a step, and a signal is remembered until the waiting thread runs. Time-outs may come at any moment; how they are computed is left out, and so is a failing `malloc` for a packet larger than its slot.
- PeerList.Add: identifiers and IPv6 addresses must be new, the base address is not overridden, and the router mask is /32; the frees on the path for a known key are left out. `inet_ntop` is any injective function. Mutexes are left out: no two calls overlap.
- Peer lists: the MAC table, subnet tests, and the socket, TAP and Windows code. Sends are collected in a sequence.
