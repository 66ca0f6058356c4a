# Proved models of the C and Python components

The repository is a collection of notes with several working components. This project models the
ones that carry state, and proves what they are for. Each module names the file it follows.

| component | modules |
|---|---|
| cJSON parser, printer and child lists | JsonText, JsonGrammar, JsonParser, JsonPrinter, JsonRendering, JsonRoundTrip, JsonParsed, JsonNumeral, JsonScan, JsonDocument, ChildList |
| threaded AVL tree, CAN FD signal cache | AvlShape, AvlTree, CanCache |
| log pipe, log service, log client | Pipe, LogFanout, LogService, LogcatLines, Logcat, LogDelivery |
| configuration library | ConfigStore, ConfigAudit, ConfigReplay, Config, ConfigTree, ConfigFiles |
| gradient boosting | Gbdt |
| blocking queue | SimpleQueue, BlockingQueue |
| debugging allocator | AllocModel, DebugAlloc |
| light state machine | LightTimer, Light |
| UART byte stuffing | Uart |
| shared types | Common |

Code that changes things in place is modelled by classes and methods with loops over arrays, fields
and linked objects; each is proved against a function on values or against one step of a transition
system, and the theorems are about those. `dafny verify dfyconfig.toml` checks everything.

## How to read it

**JSON.** `JsonText` says what is printed for a tree and which trees are well formed; `JsonGrammar`
says what is parsed. `JsonParser.ParseBuffer` and `JsonPrinter.PrintBuffer` are the two C structures
with their offset, depth and bytes, and are proved equal to these on every input. `JsonRendering` has
every way to write a tree down, whatever the blanks and spellings; `JsonRoundTrip` and `JsonParsed` prove
that the parser takes all of them and nothing else. `JsonScan` reads what is printed byte by byte. A
number is the text that denotes it: what `sprintf` produces, and the longest prefix that `strtod` accepts.

**AVL tree.** `AvlShape` has the tree as a value, `AvlTree` the nodes on the heap: child pointers,
cached heights, and the `prev`/`next` thread with `first` and `last`. One `Valid` says that both
structures hold the same nodes and agree; every insertion keeps it.

**Log.** `Pipe` is the ring with its read and write positions. `LogFanout` is the service as steps:
everything but a client's read holds the service mutex, so reads fall between the single ring writes
of an injection. `LogService` performs the steps on 17 real rings. `LogcatLines` and `Logcat` turn the
stream back into lines, and `LogDelivery` follows an entry from the log call to the printed line.

**Configuration.** `ConfigStore` has commits and worker steps in any order; the worker runs
`on_change` and audits without the lock, so commits may fall between taking a task and finishing it,
and between the three steps of an audit: testing the length of the log, dropping its oldest entry and
appending. `Config` performs the steps on item objects. `ConfigAudit` and `ConfigReplay` say when the
audit log is bounded and when it tells the truth. `ConfigTree` and `ConfigFiles` save and load.

**The rest.** `SimpleQueue` takes the stretches between lock and wait as steps, and a wait may end at
any time. `AllocModel` lets the system allocator reuse any free address and the program write any
byte. `Gbdt` computes over exact reals. `LightTimer` takes any clock readings.

## Where the code is not what it seems

Each of these is a lemma, part of a contract, or what a contract shuts out.

- `parse_string` takes a `\u` without four hexadecimal digits for a NUL character, which cuts the string.
- `add_item_to_array` does not clear the item's `next`: the list ends properly exactly if it was null.
- `cJSON_ReplaceItemViaPointer` takes a sibling for the replacement: the list is then no proper chain,
  or, when the head replaces the last of three or more, a chain of the head alone.
- The worker audits without the lock. When it and a commit both find 999 entries and append, the log
  has 1001 entries and from then on grows with every audit. When both find 1000 and drop, it has 998.
- `pipe_write` on a looping, not full ring with more bytes than the ring holds lets the count of
  pending bytes wrap below zero.
- `cfg_change_worker` rolls back to the old value of its task even if a later change is queued: the
  storage and the audit log then disagree.
- `log_logcat_clear` logs after every read, and that record enters the ring it reads: the loop ends
  only if the ring was empty at its first read.
- Where an existing file has something that is no object on the way to a key, `cfg_save_all` leaves
  the item unsaved; it still clears the item's dirty flag and returns 0.
- An absent string is saved as `null`, and loading `null` leaves the present value.
- `push_simple_queue` uses after its wait the cursor computed before: with two waiting producers an
  item is lost although both pushes return success.
- `debug_realloc_impl` on a freed pointer does not abort if the new block gets the same address.
- In the on state `next_id` is not set on entry: an unknown event switches the light off unless an
  idle or toggle event came first.
- `canfd_cmp_fun` subtracts identifiers as ints; it orders them as long as the differences fit, which
  holds for the 29 bits of CAN identifiers. A search for any other identifier still finds nothing.
- `avl_insert` returns 1 only for the first node of an empty tree.
- On a line that is just `<D` or `<S` the log client's prefix parser reads behind the line's end. If
  the next line begins with `>` it prints the rest of its buffer as one line at DEBUG, so that the
  output depends on how the stream was cut.
- Where `char` is signed, `remove_escape_char` never finds an escape.
- `add_escape_char` has no limit: a payload outgrows the frame if its length and the number of its
  special bytes together exceed 253.
- `add_escape_char` lets the length byte of a CANFD message grow, possibly into a frame start.

## Model

| member | source | states |
|---|---|---|
| JsonRoundTrip.DocumentRoundTrip | linux-coding-c/test-canfd/src/cJSON.c:1307-1820 | parsing what the printer wrote, formatted or not, gives the same tree exactly when its nesting is at most 1000, and fails otherwise; for every tree |
| JsonRoundTrip.AnyTextParses | linux-coding-c/test-canfd/src/cJSON.c:1074-1168 | for every tree, any run of blanks at every place between its parts, any spelling of every string byte and a byte-order mark or not: parsing gives the tree exactly when its nesting is at most 1000, and fails otherwise |
| JsonRoundTrip.PrintedIsText | linux-coding-c/test-canfd/src/cJSON.c:1362-1820 | what is printed in either format is one of these texts |
| JsonRoundTrip.ValueRoundTrip | linux-coding-c/test-canfd/src/cJSON.c:1307-1360 | the same for a value in the middle of any text, at any depth already reached |
| JsonRoundTrip.StringRoundTrip | linux-coding-c/test-canfd/src/cJSON.c:768-893 | a string literal is read back in every spelling: bytes as they are, two-character escapes, hexadecimal escapes in upper or lower case, surrogate pairs |
| JsonRoundTrip.NumberRoundTrip | linux-coding-c/test-canfd/src/cJSON.c:305-379 | a number text is read back whole when no number byte follows it |
| JsonRoundTrip.ItemsRoundTrip | linux-coding-c/test-canfd/src/cJSON.c:1436-1531 | the elements of an array are read back one by one, in order, whatever the blanks |
| JsonRoundTrip.MembersRoundTrip | linux-coding-c/test-canfd/src/cJSON.c:1596-1706 | the members of an object are read back with their keys, in order, duplicates included, whatever the blanks, those before the colon included |
| JsonParsed.ParsedRoundTrip | linux-coding-c/test-canfd/src/cJSON.c:1074-1290 | whatever input the parser accepts, printing its tree and parsing again gives that tree: accepted trees are well formed and nested at most 1000 deep |
| JsonParsed.ParsedValue | linux-coding-c/test-canfd/src/cJSON.c:1307-1360 | an accepted value is well formed and respects the nesting limit from the depth it started at |
| JsonParsed.AcceptedIsText | linux-coding-c/test-canfd/src/cJSON.c:1074-1168 | whatever is accepted begins with a text of the tree that is returned, with the check for the terminator the whole input is one; strings are cut at their first NUL character |
| JsonParsed.ValueIsText | linux-coding-c/test-canfd/src/cJSON.c:1307-1360 | the same for a value in the middle of any text: no other text is accepted |
| JsonParsed.StringIsText | linux-coding-c/test-canfd/src/cJSON.c:768-893 | every accepted literal is a spelling of the string it returns, cut at its first NUL character |
| JsonNumeral.NumbersExactly | linux-coding-c/test-canfd/src/cJSON.c:305-379 | a text is taken for one whole number exactly if it is sign, digits with at most one point and exponent, of at most 63 bytes, and begins with a minus or a digit |
| JsonParsed.Utf8Correct | linux-coding-c/test-canfd/src/cJSON.c:710-759 | the bytes written for a code point are its UTF-8 encoding (section 3 of RFC 3629) |
| JsonParsed.SurrogatePairDecodes | linux-coding-c/test-canfd/src/cJSON.c:647-703 | two escaped surrogates decode to the code point they stand for (section 7 of RFC 8259) |
| JsonParser.StepWithinEstimate | linux-coding-c/test-canfd/src/cJSON.c:781-869 | every decoding step writes no more bytes than the first pass has counted for what it consumes, for every input |
| JsonParser.ParseBuffer.MeasureString | linux-coding-c/test-canfd/src/cJSON.c:781-803 | the first pass finds the closing quote, or that there is none, and counts the discounted bytes |
| JsonParser.ParseBuffer.DecodeString | linux-coding-c/test-canfd/src/cJSON.c:805-869 | the second pass stays inside the estimated size and writes exactly the decoded bytes, or fails exactly when some escape is malformed |
| JsonParser.ParseBuffer.ParseHex4 | linux-coding-c/test-canfd/src/cJSON.c:610-643 | four hex digits give their value, anything else 0 |
| JsonParser.ParseBuffer.WriteUtf8 | linux-coding-c/test-canfd/src/cJSON.c:710-759 | the encoder's loop, last byte first, leaves the UTF-8 bytes behind what was there |
| JsonParser.ParseBuffer.Utf16LiteralToUtf8 | linux-coding-c/test-canfd/src/cJSON.c:647-765 | an escape is consumed and appended as UTF-8, or reported malformed, exactly as the grammar says |
| JsonParser.ParseBuffer.ParseString | linux-coding-c/test-canfd/src/cJSON.c:768-893 | the string parser accepts exactly the literals of the grammar, with their value and end |
| JsonParser.ParseBuffer.ParseNumber | linux-coding-c/test-canfd/src/cJSON.c:305-379 | the number scanner takes at most 63 number bytes and the longest prefix of them that is a number |
| JsonParser.ParseBuffer.ParseValue | linux-coding-c/test-canfd/src/cJSON.c:1307-1360 | the recursive parser over one offset and one depth counter agrees with the grammar on every input, failures included |
| JsonParser.ParseBuffer.ParseArray | linux-coding-c/test-canfd/src/cJSON.c:1436-1531 | the same for arrays, with the depth restored on success |
| JsonParser.ParseBuffer.ParseObject | linux-coding-c/test-canfd/src/cJSON.c:1596-1706 | the same for objects |
| JsonParser.Parse | linux-coding-c/test-canfd/src/cJSON.c:1090-1168 | a whole parse: byte-order mark, leading blanks, value, and the optional check for a terminator |
| JsonPrinter.CountedLength | linux-coding-c/test-canfd/src/cJSON.c:924-956 | the counting pass predicts the length of the escaped string, and finds nothing to escape exactly when copying is right |
| JsonPrinter.PrintBuffer.CountEscapes | linux-coding-c/test-canfd/src/cJSON.c:924-947 | the counting loop computes the extra characters of the escaped string |
| JsonPrinter.PrintBuffer.WriteEscapes | linux-coding-c/test-canfd/src/cJSON.c:967-1013 | the writing loop emits the escaped string between quotes, and no byte before it changes |
| JsonPrinter.PrintBuffer.Ensure | linux-coding-c/test-canfd/src/cJSON.c:439-521 | room is granted exactly when the buffer holds it or may grow to it; growing keeps what was printed |
| JsonPrinter.PrintBuffer.UpdateOffset | linux-coding-c/test-canfd/src/cJSON.c:524-534 | the offset moves to the end of the text just written |
| JsonPrinter.PrintBuffer.PrintString | linux-coding-c/test-canfd/src/cJSON.c:897-1016 | a string is written as its quoted form behind what was printed, inside the reserved space; it succeeds whenever the space and two bytes more are there |
| JsonPrinter.PrintBuffer.PrintNumber | linux-coding-c/test-canfd/src/cJSON.c:544-607 | a number text of at most 25 characters is copied with its terminator |
| JsonPrinter.PrintBuffer.PrintValue | linux-coding-c/test-canfd/src/cJSON.c:1362-1433 | a value is written as the text the document theorem is about, and fails for lack of room only when fewer than two spare bytes remain |
| JsonPrinter.PrintBuffer.PrintArray | linux-coding-c/test-canfd/src/cJSON.c:1534-1593 | the same for arrays; the depth is restored |
| JsonPrinter.PrintBuffer.PrintObject | linux-coding-c/test-canfd/src/cJSON.c:1709-1820 | the same for objects, tabs and line ends included |
| JsonPrinter.Print | linux-coding-c/test-canfd/src/cJSON.c:1182-1255 | the printed document is exactly the text of the tree; it fails only for a number too long or a text of 2 GiB |
| JsonPrinter.PrintPreallocated | linux-coding-c/test-canfd/src/cJSON.c:1287-1305 | in a buffer of fixed size the text and its terminator stay inside, and two bytes more than the text always suffice |
| JsonPrinter.PrintedNulFree | linux-coding-c/test-canfd/src/cJSON.c:524-534 | no printed text contains the terminator that the offset is advanced to |
| JsonScan.PrintedLaidOut | linux-coding-c/test-canfd/src/cJSON.c:1362-1820 | read byte by byte, unformatted text has no blank outside its literals; formatted text has exactly one new line before every member and closing brace, with a tab for each bracket that is open there (one less for the brace), a tab behind a colon, a space behind the comma of an array; brackets match and no control byte is in a literal |
| JsonScan.FormattedSqueezed | linux-coding-c/test-canfd/src/cJSON.c:1362-1820 | deleting the blanks outside the literals turns the formatted text into the unformatted one, which has none |
| JsonDocument.PrintAndParse | linux-coding-c/test-canfd/src/cJSON.c:1090-1290 | printing a tree into the growing buffer and parsing the bytes returns that tree exactly when its nesting is allowed |
| ChildList.AddItemToArray | linux-coding-c/test-canfd/src/cJSON.c:1951-1982 | appending gives the old children and the item if the list was empty, or the item was not in it and its own next was null; otherwise the parent's pointers fit no sequence of children at all |
| ChildList.DetachItemViaPointer | linux-coding-c/test-canfd/src/cJSON.c:2170-2204 | detaching removes exactly that item from the sequence and clears its links |
| ChildList.DetachItemFromArray | linux-coding-c/test-canfd/src/cJSON.c:2206-2214 | detaching by position, or nothing for a position outside the list |
| ChildList.InsertItemInArray | linux-coding-c/test-canfd/src/cJSON.c:2246-2273 | inserting an item that is not among the children gives the spliced children, and one that is leaves pointers that fit no sequence; appending past the end, refusing a negative position |
| ChildList.ReplaceItemViaPointer | linux-coding-c/test-canfd/src/cJSON.c:2275-2322 | a replacement that is not another of the children takes the item's place and every other stays; a sibling leaves pointers that fit no sequence, except that the head in place of the last of at least three is left as the only child; the replaced one's links are cleared |
| ChildList.ReplaceItemInArray | linux-coding-c/test-canfd/src/cJSON.c:2324-2332 | replacing by position fails exactly for a missing position or item, and else does the same |
| ChildList.GetArrayItem | linux-coding-c/test-canfd/src/cJSON.c:1846-1863 | walking the chain reaches the item at the index, or null |
| ChildList.GetArraySize | linux-coding-c/test-canfd/src/cJSON.c:1823-1844 | walking the chain counts the children |
| ChildList.LinksInverse | linux-coding-c/test-canfd/src/cJSON.c:1951-1982 | inside a chain next and prev undo each other and the head's prev is the tail |
| ChildList.ChildrenUnique | linux-coding-c/test-canfd/src/cJSON.c:1846-1863 | the pointers determine the sequence of children |
| AvlShape.InsertedBalanced | linux-coding-c/test-canfd/src/avl_tree.c:138-209 | every insertion into a balanced tree leaves all balance factors in -1..1, and the height grows by at most one |
| AvlShape.InsertedInorder | linux-coding-c/test-canfd/src/avl_tree.c:138-209 | an insertion splices the node into the in-order sequence at one position, or changes nothing for an equal key |
| AvlShape.InsertedSorted | linux-coding-c/test-canfd/src/avl_tree.c:138-209 | under a comparator that orders the keys present the in-order sequence stays sorted |
| AvlShape.RebalancedInorder | linux-coding-c/test-canfd/src/avl_tree.c:183-206 | single and double rotations keep the in-order sequence |
| AvlShape.PositionSplits | linux-coding-c/test-canfd/src/avl_tree.c:149-182 | the position found on the way down has smaller keys before it and greater ones behind it |
| AvlShape.BalancedSize | linux-coding-c/test-canfd/src/avl_tree.c:138-209 | a balanced tree of height h has at least the Fibonacci-style minimum of nodes |
| AvlShape.SearchComplete | linux-coding-c/test-canfd/src/avl_tree.c:26-50 | the descent finds the only node with an equal key, or there is none |
| AvlTree.RotateRight | linux-coding-c/test-canfd/src/avl_tree.c:91-100 | the pointer rotation builds the rotated shape with right heights |
| AvlTree.RotateLeft | linux-coding-c/test-canfd/src/avl_tree.c:112-121 | its mirror image |
| AvlTree.Rebalance | linux-coding-c/test-canfd/src/avl_tree.c:183-206 | refreshing the height and rotating turns the heap into the rebalanced shape in all four cases |
| AvlTree.Tree.LinkBefore | linux-coding-c/test-canfd/src/avl_tree.c:151-162 | splicing a left child into the thread keeps first and both directions of the chain |
| AvlTree.Tree.LinkAfter | linux-coding-c/test-canfd/src/avl_tree.c:165-177 | splicing a right child into the thread keeps last and both directions of the chain |
| AvlTree.Tree.InsertRec | linux-coding-c/test-canfd/src/avl_tree.c:138-209 | the recursion rebuilds pointers, heights and thread of the subtree together |
| AvlTree.Tree.Insert | linux-coding-c/test-canfd/src/avl_tree.c:138-218 | any insertion keeps search order, heights, balance and thread; the node set gains the node, or nothing for an equal key; the result is 1 only for the empty tree |
| AvlTree.Tree.Search | linux-coding-c/test-canfd/src/avl_tree.c:26-50 | search returns the only matching node of the thread, or null when no node matches |
| AvlTree.Tree.Scan | linux-coding-c/test-canfd/src/avl_tree.c:26-50 | a linear scan of the thread finds the same node as the search |
| AvlTree.Tree.Walk | linux-coding-c/test-canfd/src/avl_tree.c:151-177 | following next from first visits the nodes in order |
| AvlTree.Tree.WalkBack | linux-coding-c/test-canfd/src/avl_tree.c:151-177 | following prev from last visits them in reverse |
| AvlTree.Tree.TreeHeight | linux-coding-c/test-canfd/src/avl_tree.c:52-64 | the stored height is the real one, and the tree has the minimum number of nodes for it |
| AvlTree.Tree.InsertAll | linux-coding-c/test-canfd/src/avl_tree.c:211-218 | after any number of insertions the tree is valid and every inserted key is found |
| AvlTree.FoundAfterInsert | linux-coding-c/test-canfd/src/avl_tree.c:138-209 | an insertion makes its key findable and loses none |
| Pipe.Pipe.Write | linux-coding-c/log/src/pipe.c:287-389 | a looping write leaves the newest bytes of old and new data, another appends the longest prefix that fits; error codes and the full looping ring included; written = read + overwritten + pending is kept by every operation |
| Pipe.OverwriteSafe | linux-coding-c/log/src/pipe.c:336-352 | the count of pending bytes does not wrap below zero if and only if the write fits the ring or the ring is full |
| Pipe.Pipe.Read | linux-coding-c/log/src/pipe.c:200-278 | a read removes the oldest whole bunches that fit and hands them out, or returns its error code and changes nothing |
| Pipe.Pipe.Peek | linux-coding-c/log/src/pipe.c:127-189 | a peek copies the same bytes as a read and changes nothing |
| Pipe.Taken | linux-coding-c/log/src/pipe.c:161-175 | a read takes the largest multiple of the bunch that is asked for and pending |
| Pipe.Pipe.Clone | linux-coding-c/log/src/pipe.c:91-105 | a clone of equal size holds the same bytes and counters, one of another size is left alone |
| Pipe.Pipe.Open | linux-coding-c/log/src/pipe.c:25-61 | opening gives an empty ring, opening twice is refused |
| Pipe.Pipe.Close | linux-coding-c/log/src/pipe.c:67-81 | closing empties and resets the pipe |
| Pipe.RingStored | linux-coding-c/log/src/pipe.c:354-371 | bytes copied behind the pending ones in one or two pieces extend the sequence |
| Pipe.RingTaken | linux-coding-c/log/src/pipe.c:246-261 | moving the read position drops the oldest bytes from the sequence |
| LogFanout.AfterAnyRun | linux-coding-c/log/src/log_service.c:86-200 | after any run, between injections, a client's unread bytes are the end of its snapshot and all injected since; what it read and lost make up the rest in order; nothing lost means all delivered |
| LogFanout.UnreadHoldsMaster | linux-coding-c/log/src/log_service.c:86-200 | in any run a client that has read nothing since it connected holds what the master holds, while nobody reads the master |
| LogFanout.MasterHoldsNewest | linux-coding-c/log/src/log_service.c:156-200 | as long as nobody reads from it the master holds the newest bytes ever logged |
| LogFanout.StepKeepsInv | linux-coding-c/log/src/log_service.c:86-200 | every step, reads in the middle of an injection included, keeps the account of every client |
| LogFanout.ReceivedAccounted | linux-coding-c/log/src/pipe.c:336-371 | only the oldest unread bytes of a client are ever dropped |
| LogFanout.ChunkFirst | linux-coding-c/log/src/log_service.c:179-185 | writing prefix and text one after the other keeps the newest bytes of both |
| LogService.Service.Inject | linux-coding-c/log/src/log_service.c:188-200 | the loop over master and slots performs one begun injection and its 34 ring writes |
| LogService.Service.GetNewPipe | linux-coding-c/log/src/log_service.c:86-122 | a new client gets a clone of the master in the first free slot, the others stay; null exactly when all 16 are taken, and then an error record goes to every ring |
| LogService.Service.FreePipe | linux-coding-c/log/src/log_service.c:125-150 | freeing empties that client's slot and no other; for a pipe that is no client's an error record goes to every ring and the clients stay |
| LogService.Service.ReadClient | linux-coding-c/log/src/log_service.c:300-313 | a client's read delivers its next bytes, at any moment, even during an injection |
| LogService.Service.ClearTurn | linux-coding-c/log/src/log_service.c:230-245 | a turn of the clearing loop reads at most 256 bytes off the master and then injects the record that it logs, into every ring; the master keeps the newest bytes of what is left and the record |
| LogFanout.ClearEnds | linux-coding-c/log/src/log_service.c:238-243 | the clearing loop finds the master empty, and so stops, in its first turn if the ring was empty and in no other turn |
| LogFanout.ClearEmptyLeavesRecord | linux-coding-c/log/src/log_service.c:238-243 | a loop that finds the ring empty leaves just its own record behind |
| LogService.Service.constructor | linux-coding-c/log/src/log_service.c:156-176 | the service starts with the early log and no client |
| LogService.InjectionIsRun | linux-coding-c/log/src/log_service.c:179-200 | the loop's writes are a run of the transition system |
| LogcatLines.ChunkingIsInvisible | linux-coding-c/log/src/logcat.c:132-239 | however a stream without a misread line is cut, the client puts out its lines, each read on its own |
| LogcatLines.CutInvariantExactly | linux-coding-c/log/src/logcat.c:132-239 | every way of cutting a stream gives the same lines, levels and rest if and only if no line that is just <D or <S is directly followed by > |
| LogcatLines.MisreadSample | linux-coding-c/log/src/logcat.c:132-229 | <D, newline, >x, newline: in one piece it puts out x and its newline at DEBUG and then >x, cut behind the first newline <D and >x |
| LogcatLines.EntriesComeBack | linux-coding-c/log/src/logcat.c:132-239 | however the records reach the client, it puts out exactly the entries logged, each at its own level, if and only if no text has a newline |
| LogcatLines.FedCounted | linux-coding-c/log/src/logcat.c:208-239 | however a stream is cut, misread lines included, the client puts out one line for each newline |
| LogcatLines.RecordComesBack | linux-coding-c/log/src/log.c:227-267 | a prefixed record comes back as its own text and level, whatever came before, if and only if the text has no newline |
| LogcatLines.RecordLevelIsLowest | linux-coding-c/log/src/log.c:227-267 | the level that survives is the lowest flag set, or INFO |
| LogcatLines.PrefixLetters | linux-coding-c/log/src/log.c:227-267 | the letters of the eleven prefixes |
| LogcatLines.RecordsReadable | linux-coding-c/log/src/logcat.c:132-181 | a stream of records has no misread line if and only if no single record has; a record of one line has none |
| LogcatLines.EmittedConcat | linux-coding-c/log/src/logcat.c:208-239 | an unfinished line waits for the next piece and is then read as if it had come at once |
| Logcat.Client.ParseLog | linux-coding-c/log/src/logcat.c:208-239 | any chunk, cut to the room left, puts out what the scanning of the buffer makes of its complete lines, misread ones included; an unfinished line that fills the buffer is dropped |
| Logcat.Client.LevelFromPrefix | linux-coding-c/log/src/logcat.c:132-181 | the byte-wise prefix parser finds the prefix and level of the line if and only if it is not just <D or <S with a > behind its terminator; then it goes two bytes past the line, at DEBUG |
| Logcat.Client.EmitLines | linux-coding-c/log/src/logcat.c:222-229 | the scanning loop puts out every complete line, a misread one with the rest of the buffer, and leaves the unfinished one |
| Logcat.Client.Receive | linux-coding-c/log/src/logcat.c:404-454 | receive buffers of any number and size go through one by one; when nothing is cut off and no line is misread they give the lines of the whole stream |
| Logcat.Client.ReceiveBuffer | linux-coding-c/log/src/logcat.c:435-453 | any receive buffer is taken in NUL-free pieces with <nul> in place of every NUL |
| Logcat.PiecesShown | linux-coding-c/log/src/logcat.c:435-453 | these pieces together are the buffer with <nul> in place of every NUL, wherever the NULs are |
| LogDelivery.EveryEntryArrives | linux-coding-c/log/src/logcat.c:208-239 | after any run, a client that lost nothing and read everything, with no misread line in its snapshot, gets the lines of its snapshot and then every entry logged since it connected, each at its own level, however its reads cut the bytes, if and only if these have no newlines |
| LogDelivery.EveryRecordDelivered | linux-coding-c/log/src/log_service.c:86-200 | what such a client read are the bytes of its snapshot and the records since, whatever was logged; its snapshot has no misread line when no line of the early log begins with > and no entry before had a newline |
| LogDelivery.PrintDelivered | linux-coding-c/log/src/logcat.c:404-454 | the log client's buffer that receives these bytes prints exactly those lines under the same condition |
| LogDelivery.StepKeepsTidy | linux-coding-c/log/src/log_service.c:86-200 | what was injected are the records of the entries logged, and rings and snapshots hold complete lines between injections |
| ConfigStore.CommitOutcome | linux-coding-c/config/lib/jsonconfig.c:977-1072 | an error code leaves everything unchanged; 0 is returned exactly for a runtime item, a matching type and an accepted or unchanged value, and then only that storage takes the parsed value; a changed restart item is recorded as a reason for a restart, and only its own dirty mark changes, set unless it is temporary |
| ConfigStore.CommitCodes | linux-coding-c/config/lib/jsonconfig.c:977-1072 | each error code is returned exactly for its reason |
| ConfigStore.RunMarks | linux-coding-c/config/lib/jsonconfig.c:977-1048 | after any run the restart reasons are in order the keys of the restart items whose commits changed a storage, rolled back or not; a restart is needed exactly if there is one or it was before; dirty marks are set for exactly the changed items that are not temporary |
| ConfigStore.RunIsSafe | linux-coding-c/config/lib/jsonconfig.c:668-1048 | after any interleaving of commits and worker steps, the worker's unlocked audit included, every storage holds a value its validator accepted, and the audit log is the newest entries of everything audited, never fewer than the newest 998 |
| ConfigAudit.LogBound | linux-coding-c/config/lib/jsonconfig.c:333-349 | over any run the log with every audit underway finished stays within 1000 entries, and is at rest exactly the newest ones, if and only if no audit's test misses a log that is full when the appends underway are counted; none does when no commit and worker audit overlap |
| ConfigAudit.PushKeepsNewest | linux-coding-c/config/lib/jsonconfig.c:333-349 | appending leaves the newest entries, at most 1000, if and only if the log had all of a shorter history or 999 entries before; while no test was blind, if and only if no other audit is right before its own append or fewer than 1000 entries have been audited |
| ConfigAudit.OverflowReachable | linux-coding-c/config/lib/jsonconfig.c:333-349 | a run from the start ends at rest with 1001 entries: worker and commit both find 999 and append |
| ConfigAudit.OverflowIsForever | linux-coding-c/config/lib/jsonconfig.c:333-349 | a log of more than 1000 entries, those due to be dropped not counted, loses only these: the others stay for ever and every append makes it longer |
| ConfigAudit.DropAfterOverflow | linux-coding-c/config/lib/jsonconfig.c:333-349 | a drop decided before the overflow takes a log of 1001 back to 1000, and the bound is broken all the same |
| ConfigAudit.LowReachable | linux-coding-c/config/lib/jsonconfig.c:333-349 | worker and commit both find 1000 entries and drop: a run from the start stands at 998 |
| ConfigAudit.FinalNeverFalls | linux-coding-c/config/lib/jsonconfig.c:333-349 | over any run the length that the log will have once every audit underway is finished never falls |
| ConfigStore.StepKeepsInv | linux-coding-c/config/lib/jsonconfig.c:668-1048 | every commit, pop, rollback, and every test, drop and append of an audit keeps storages, queued tasks and entries underway accepted and the log an end of the history |
| ConfigReplay.StepLink | linux-coding-c/config/lib/jsonconfig.c:668-1048 | a step keeps replaying right for a key if and only if it does not roll the key back over a later queued change |
| ConfigReplay.LinkedExactlyIfClean | linux-coding-c/config/lib/jsonconfig.c:668-1048 | replaying is right in every state of a run if and only if no step of it rolls the key back over a later queued change |
| ConfigReplay.PlainItemAudit | linux-coding-c/config/lib/jsonconfig.c:333-349 | for items without on_change, after every run, unless a commit of the item is still being audited, replaying the audit gives the storage and the entries still in the log chain up to it |
| ConfigReplay.CleanRunAudit | linux-coding-c/config/lib/jsonconfig.c:333-349 | for any item the same holds after a run without such a rollback, once no change is in flight |
| ConfigReplay.RollbackBreaksAudit | linux-coding-c/config/lib/jsonconfig.c:668-717 | two commits and one rollback leave storage 1 while the only audit entry ends at 3 |
| Config.Library.CommitItem | linux-coding-c/config/lib/jsonconfig.c:977-1048 | apply, compare, validate and undo on the item's storage perform the commit, up to the test of the log's length |
| Config.Library.CommitNodeByKey | linux-coding-c/config/lib/jsonconfig.c:1054-1072 | looking the item up and committing performs all steps of a commit: change and test, drop, append |
| Config.Library.WorkerDone | linux-coding-c/config/lib/jsonconfig.c:687-706 | rolling back under the lock, or testing the log's length without it, performs the worker's step |
| Config.Library.WorkerRemove | linux-coding-c/config/lib/jsonconfig.c:342 | dropping the oldest entry performs the worker's second step |
| Config.Library.WorkerAppend | linux-coding-c/config/lib/jsonconfig.c:348 | appending the entry performs the worker's last step |
| Config.Library.WorkerTake | linux-coding-c/config/lib/jsonconfig.c:671-678 | taking the next task performs its step |
| Config.Library.TestAudit | linux-coding-c/config/lib/jsonconfig.c:341 | a drop is due exactly when the log holds 1000 entries |
| Config.Library.DropAudit | linux-coding-c/config/lib/jsonconfig.c:342-346 | the oldest entry leaves the log, the history stays |
| Config.Library.PushAudit | linux-coding-c/config/lib/jsonconfig.c:348 | the entry goes to the end of the log |
| Config.Library.Register | linux-coding-c/config/lib/jsonconfig.c:847-867 | a key is registered once, with the type its storage size makes of the declared one; a duplicate or a misfit is refused and changes nothing |
| Config.NormalizedExactly | linux-coding-c/config/lib/jsonconfig.c:761-816 | a declaration is accepted exactly with a storage that has the size of its type, or with a float behind a double, or with any integer size for an automatic type; the type then has that size |
| ConfigTree.PutFound | linux-coding-c/config/lib/jsonconfig.c:900-918 | a value written under a dotted key is found there if and only if everything on the way is an object or missing; otherwise the tree is unchanged |
| ConfigTree.PutElsewhere | linux-coding-c/config/lib/jsonconfig.c:900-918 | in any tree a write changes no path that is neither above nor below it |
| ConfigTree.PutKeepsWritable | linux-coding-c/config/lib/jsonconfig.c:900-918 | a write neither blocks nor clears the way of an unrelated path |
| ConfigTree.BothSurvive | linux-coding-c/config/lib/jsonconfig.c:900-918 | two values written one after the other can both be read exactly when both ways were free and neither key is a segment-prefix of the other |
| ConfigTree.SplitInjective | linux-coding-c/config/lib/jsonconfig.c:876-918 | different keys have different paths |
| ConfigTree.GetByPath | linux-coding-c/config/lib/jsonconfig.c:876-898 | the walk along the tokens finds the node or that there is none |
| ConfigTree.DefaultRecovers | linux-coding-c/config/lib/jsonconfig.c:1075-1162 | the default handlers recover a value exactly when it is not an absent string |
| ConfigFiles.SaveFile | linux-coding-c/config/lib/jsonconfig.c:2493-2532 | the saved tree holds every persistent item that its to_json shows and nothing else |
| ConfigFiles.LoadFile | linux-coding-c/config/lib/jsonconfig.c:2347-2396 | from any tree, arrays included, loading sets storage, flags and source file of every item as its node says and sums the codes; items outside the domain, temporary ones and those without a plain value of their type in the tree stay as they are |
| ConfigFiles.SaveThenLoad | linux-coding-c/config/lib/jsonconfig.c:2357-2510 | saving one item into any tree and loading it restores the value if the way was free and the handlers recover it; a value saved as no plain value or not saved leaves the later one |
| ConfigFiles.SaveEditLoad | linux-coding-c/config/lib/jsonconfig.c:2347-2532 | saving, changing the storages to anything and loading restores every persistent item whose handlers recover it |
| ConfigFiles.Collect | linux-coding-c/config/lib/jsonconfig.c:2581-2615 | merging the items into their files' existing trees keeps every unrelated path, and makes an item readable exactly when its way was free |
| ConfigFiles.SaveAll | linux-coding-c/config/lib/jsonconfig.c:2576-2664 | whatever the files held and whichever can be written: an item keeps its source file, or takes its default if it has none and is not temporary; if it is to be saved, its file can be written and its way was free, that file then holds its value and it is clean; under its path no other file changes, and none at all for an item that is not to be saved; only written files change, in no path apart from the written keys; -1 exactly when nothing is to be written or a file cannot be |
| ConfigFiles.LoadChangeSaveLoad | linux-coding-c/config/lib/jsonconfig.c:2347-2664 | load a file, change the values, save all, load it again: every item that came from the file has its changed value back, in the file too, and is clean |
| ConfigFiles.SaveAllAndLoad | linux-coding-c/config/lib/jsonconfig.c:2347-2664 | saving all and loading one of the files leaves its dirty items as they were, and clean |
| Gbdt.LossOverRounds | AI/监督学习基础/8. GBDT_example.py:89-107 | a round changes the training loss by exactly rate (2 - rate) times the squared predictions of its tree, so it never rises if and only if the rate is in [0, 2] or the tree predicts zero |
| Gbdt.ResidualsSumToZero | AI/监督学习基础/8. GBDT_example.py:89-107 | the residuals sum to zero before and after every round |
| Gbdt.RoundProgress | AI/监督学习基础/8. GBDT_example.py:18-107 | a round whose tree splits lowers the loss by at least rate (2 - rate) times the gain of its first split over all samples; a single leaf changes nothing; with a level to grow and a rate strictly between 0 and 2 the loss falls whenever some split gains 10^-10 |
| Gbdt.TreeSums | AI/监督学习基础/8. GBDT_example.py:45-73 | every sample reaches the leaf with its group's mean: predictions sum to the targets and errors are orthogonal to them |
| Gbdt.StrengthAtLeast | AI/监督学习基础/8. GBDT_example.py:45-63 | a tree explains at least what its first split explains |
| Gbdt.GainTimesCount | AI/监督学习基础/8. GBDT_example.py:34-38 | the gain of a split is what the two means explain beyond the one |
| Gbdt.BestSplit | AI/监督学习基础/8. GBDT_example.py:18-43 | the running maximum is the largest gain over all features and thresholds, the first of them on a draw, or there is no positive gain |
| Gbdt.BuildTree | AI/监督学习基础/8. GBDT_example.py:45-63 | the recursion grows the tree that stops and splits as described |
| Gbdt.GrowsFully | AI/监督学习基础/8. GBDT_example.py:45-63 | a tree is at most max_depth levels high, and at every node splits if and only if a level is left, more than one sample and a squared error of at least 10^-10 reach it and some split gains at least 10^-10 |
| Gbdt.Regressor.Fit | AI/监督学习基础/8. GBDT_example.py:89-107 | every tree is grown on the residuals of the trees before it, starting from the mean |
| Gbdt.Unique | AI/监督学习基础/8. GBDT_example.py:26-27 | thresholds are the distinct values in increasing order |
| SimpleQueue.OneProducerIsFifo | linux-coding-c/simple_queue/simple_queue.c:99-151 | one producer, any consumers, any wake-ups: popped items are the first of the pushed ones, the rest is queued in order, at most length - 1 |
| SimpleQueue.OneProducerOutcome | linux-coding-c/simple_queue/simple_queue.c:99-151 | with one producer, after any run, a push goes through exactly if fewer than length - 1 items are queued, a pop hands out the oldest item exactly if there is one, and otherwise they wait, or fail after the wait |
| SimpleQueue.StepInv | linux-coding-c/simple_queue/simple_queue.c:99-151 | a step keeps the queue right if and only if it is not the wake-up of a producer whose cursor went stale |
| SimpleQueue.RightExactlyWithoutStale | linux-coding-c/simple_queue/simple_queue.c:99-151 | for any number of producers and consumers the queue is right in every state of a run if and only if no step of the run is such a wake-up |
| SimpleQueue.RunRecords | linux-coding-c/simple_queue/simple_queue.c:99-151 | over any run the record holds exactly the items whose push was reported done and exactly those handed out, in order; failing and waiting steps move nothing |
| SimpleQueue.OneProducerDelivers | linux-coding-c/simple_queue/simple_queue.c:99-151 | with one producer the items handed out are the first of those reported pushed, and the rest is queued |
| SimpleQueue.TwoProducersLoseAnItem | linux-coding-c/simple_queue/simple_queue.c:99-125 | two waiting producers: both are told success, one item is lost |
| BlockingQueue.Queue.PushBegin | linux-coding-c/simple_queue/simple_queue.c:99-121 | the stretch of a push up to its end or wait |
| BlockingQueue.Queue.PushResume | linux-coding-c/simple_queue/simple_queue.c:112-124 | the stretch of a push after the wait |
| BlockingQueue.Queue.PopBegin | linux-coding-c/simple_queue/simple_queue.c:127-151 | the stretch of a pop up to its end or wait |
| BlockingQueue.Queue.PopResume | linux-coding-c/simple_queue/simple_queue.c:138-151 | the stretch of a pop after the wait |
| BlockingQueue.Queue.constructor | linux-coding-c/simple_queue/simple_queue.c:18-55 | a new queue is empty |
| AllocModel.RunIsAccounted | linux-coding-c/debug_alloc.h:89-332 | after any run with any address reuse: unfreed records are exactly the live blocks, the search finds the live record, the leak total is the number of live blocks |
| AllocModel.FreeOutcome | linux-coding-c/debug_alloc.h:214-291 | freeing aborts exactly for a pointer that is neither null nor live; a live block is filled with 0xDD and no other byte changes |
| AllocModel.MallocOutcome | linux-coding-c/debug_alloc.h:195-212 | a new block lies behind 16 bytes of red zone, filled with 0xAA between two zones of 0xEE; no other byte changes |
| AllocModel.ReallocMoves | linux-coding-c/debug_alloc.h:302-332 | resizing a live block keeps its first min(old, new) bytes, fills the rest with 0xAA and the old block with 0xDD, and no other live block changes |
| AllocModel.ReallocEdges | linux-coding-c/debug_alloc.h:302-332 | resizing null or an unknown pointer allocates, resizing to 0 frees, and without memory nothing changes |
| AllocModel.ReallocOfFreed | linux-coding-c/debug_alloc.h:302-332 | resizing a freed block aborts if and only if the new block lies at another address |
| AllocModel.ReportsAfterRun | linux-coding-c/debug_alloc.h:195-291 | after any run from the start a red zone of a live block is found damaged exactly when the program itself has overrun it, and never when every write stayed out of the red zones |
| DebugAlloc.Allocator.FreeAfterRun | linux-coding-c/debug_alloc.h:214-291 | freeing a live block after any run does not abort and reports exactly the overrun red zones |
| AllocModel.StepKeepsInv | linux-coding-c/debug_alloc.h:195-332 | every call and every write of the program keeps records, blocks and red zones right |
| DebugAlloc.Allocator.FindAllocInfo | linux-coding-c/debug_alloc.h:119-128 | the list walk finds the newest record of the pointer |
| DebugAlloc.Allocator.AddAlloc | linux-coding-c/debug_alloc.h:89-116 | a new record goes to the front of the list |
| DebugAlloc.Allocator.DebugMalloc | linux-coding-c/debug_alloc.h:195-212 | red zones, fill pattern and record of a new block |
| DebugAlloc.Allocator.DebugFree | linux-coding-c/debug_alloc.h:214-291 | aborts, or reports exactly the damaged red zones and marks the record |
| DebugAlloc.Allocator.DebugRealloc | linux-coding-c/debug_alloc.h:302-332 | the three stages performed on the list |
| DebugAlloc.Allocator.ReportLeaks | linux-coding-c/debug_alloc.h:160-179 | the count of unfreed records |
| Light.Machine.HandleEvent | linux-coding-c/state_machine/src/state_machine.c:42-111 | an event performs one step of the flat automaton, and the nested context is allocated exactly while the light is on |
| Light.Machine.HandleSub | linux-coding-c/state_machine/src/state_on.c:24-114 | the nested handlers compute the next outer state and the time stamps |
| Light.Machine.SwitchOuter | linux-coding-c/state_machine/src/state_machine.c:42-90 | entering, switching and leaving create and destroy the nested context |
| Light.Machine.SwitchSub | linux-coding-c/state_machine/src/state_machine.c:42-90 | the time is stamped exactly when the substate changes |
| Light.Machine.Destroy | linux-coding-c/state_machine/src/state_machine.c:167-179 | nothing stays allocated |
| LightTimer.OffOnlyAfterTimeout | linux-coding-c/state_machine/src/state_on.c:24-114 | with idle and toggle events the light goes off only at an idle event more than 1800 s after the toggle that entered normal mode, or at least 5 s after the one that entered delay mode |
| LightTimer.IdleEnforcesTimeout | linux-coding-c/state_machine/src/state_on.c:24-100 | an idle event leaves the light on if and only if no more than 1800 s, or less than 5 s, have passed since the toggle that entered the mode |
| LightTimer.ModeWasEntered | linux-coding-c/state_machine/src/state_on.c:24-100 | the present mode was entered by a toggle and has lasted since |
| LightTimer.GoesOnExactly | linux-coding-c/state_machine/src/state_off.c:10-28 | the light goes on at a toggle and at nothing else, in normal mode from then |
| LightTimer.ModeCountsToggles | linux-coding-c/state_machine/src/state_on.c:24-100 | while it is on the mode is normal if and only if an even number of toggles followed the one that switched it on |
| LightTimer.UnknownEvent | linux-coding-c/state_machine/src/state_on.c:107-114 | an unknown event switches the light off exactly when no known event has been handled since it went on |
| Uart.EscapeRoundTrip | linux-coding-c/test-recv.c:65-148 | removing escapes undoes adding them, for every payload |
| Uart.UnescapeRoundTrip | linux-coding-c/test-recv.c:65-148 | data without a frame start that can be unescaped is the escaped form of the result |
| Uart.NoStartInside | linux-coding-c/test-recv.c:118-139 | no frame start appears inside an escaped payload |
| Uart.UnescapeFails | linux-coding-c/test-recv.c:71-91 | removal fails exactly on a dangling or unknown escape |
| Uart.RemoveRoundTrip | linux-coding-c/test-recv.c:65-148 | removing undoes adding for every payload where char is unsigned, and exactly for payloads without a special byte where it is signed |
| Uart.RemoveEscapeChar | linux-coding-c/test-recv.c:65-99 | the in-place walk leaves the unescaped payload and returns the length difference, or -1; with a signed char it leaves the data alone and returns 0 |
| Uart.AddEscapeChar | linux-coding-c/test-recv.c:101-148 | the payload becomes its escaped form and the length grows by its special bytes; the length byte of a CANFD message grows by as much |
| Uart.FitsFrame | linux-coding-c/test-recv.c:101-148 | the escaped payload stays inside the data if and only if the payload's length plus its special bytes is at most 253 |
| Uart.OutgrowSample | linux-coding-c/test-recv.c:101-148 | 127 bytes 0x60 fit the data, escaped they do not |
| Uart.SentHasNoStart | linux-coding-c/test-recv.c:118-143 | what is sent has no frame start in it, except for the length byte of a CANFD message when it grows to one |
| Uart.EscapeInto | linux-coding-c/test-recv.c:118-139 | the escaping loop fills the scratch buffer and counts the special bytes |
| CanCache.Canfd.UpdatePacket | linux-coding-c/test-canfd/src/canfd_parse.c:134-164 | a message that changes the data refreshes every signal to what the data says and calls back exactly what changed, in order; otherwise nothing happens |
| CanCache.Canfd.UpdateSignal | linux-coding-c/test-canfd/src/canfd_signal.c:106-139 | a signal takes its decoded value and calls back if and only if it differs |
| CanCache.Canfd.RefreshSignals | linux-coding-c/test-canfd/src/canfd_parse.c:146-152 | the loop refreshes all signals and records their callbacks in order |
| CanCache.CallbacksExactly | linux-coding-c/test-canfd/src/canfd_signal.c:106-139 | the callbacks are exactly those of the changed signals, own and general, each once with the new value, signal by signal, the own one first |
| CanCache.Canfd.SearchById | linux-coding-c/test-canfd/src/canfd_parse.c:76-86 | the packet with the identifier, or null when no packet has it, for every identifier, even where the comparison wraps |
| CanCache.Canfd.Parse | linux-coding-c/test-canfd/src/canfd_parse.c:167-181 | an unknown identifier is refused and nothing changes; a known one updates its packet, with the callbacks of what changed, and every other packet stays as it is |
| CanCache.TypeHoldsBits | linux-coding-c/test-canfd/src/canfd_signal.c:25-68 | the type chosen for a bit length holds it, and one of half the size would not |
| CanCache.ComparisonWraps | linux-coding-c/test-canfd/src/canfd_parse.c:22-27 | the identifier comparison is exact if and only if the difference fits an int; over all ints it is not transitive |
| CanCache.IdsOrdered | linux-coding-c/test-canfd/src/canfd_parse.c:22-27 | it is a total order on any identifiers that are less than 2^31 apart |

## Left out

- cJSON numbers: conversion between text and floating point, locales, `valueint`; numbers are texts.
- cJSON memory: allocation failure, custom hooks, `cJSON_Delete`, references, raw items; duplicate and compare, minify, object lookup by name.
- cJSON objects: after a trailing comma at the very end of the buffer the source reads one byte behind it; the model fails there.
- JsonPrinter.Print: growing by `realloc` and growing by allocate-and-copy are one operation, and the text is returned as a value.
- ChildList.InsertItemInArray: a null new item at an existing position, which the source dereferences.
- AvlTree.Tree.Insert: the key is a field of the node and the comparator takes keys; deletion of nodes does not exist in the source.
- Pipe.Pipe.Read: sync pipes and reads that wait for more bytes than are pending, because the wait holds the mutex; the same for Pipe.Pipe.Peek.
- Pipe.Pipe.Write: hooks, speeds, timeouts and `file_size`; a ring of size 0 with looping writes longer than it.
- LogService.Service.ClearTurn: the text of the record is a parameter, and clients' reads between the read and the record are not interleaved.
- LogService.Service.GetNewPipe: a failing allocation; the text of the error record is a parameter, and no other operation comes before it is logged; the same for LogService.Service.FreePipe.
- LogService.Service.Inject: building the prefix, the early-log buffer and sockets; records longer than the ring of 1 MiB.
- LogFanout: that a client thread eventually reads is not claimed, only what it finds when it does.
- Logcat.Client.ParseLog: chunks are NUL-free, which the receive loop sees to; a line put out is the argument of the log call, not its bounded formatting; `memmove` copies more bytes than remain, the model copies those that remain; the variant with time zones.
- Config.Library.Register: pointers have 8 bytes, and copying the text of a string item into its storage.
- ConfigStore: the text form of audit values and time stamps; a single queue operation does not tear; floating-point comparison of values is equality of reals.
- ConfigTree.GetByPath: JSON trees are values, so aliasing between json-glib objects is not captured; `json_get_or_create` is the recursive function `Put` on them.
- ConfigTree.DefaultRecovers: the range checks of float and double items.
- ConfigFiles.SaveAll: a file is the tree it holds, and its root is an object; keys are non-empty, because the split of an empty key is read past its end.
- Gbdt.Regressor.Fit: rounding, the classifier, and probabilities; rows are equally wide.
- SimpleQueue: destruction while threads wait; the mutex and the condition variable are the steps themselves.
- DebugAlloc.Allocator.AddAlloc: the record itself can always be allocated; the source returns silently when it cannot.
- AllocModel: back traces, thread registry, calloc; sizes near the end of the address space.
- Light: callbacks and messages; the clock is read once per event.
- Uart.RemoveEscapeChar: what the data holds after a failure, when the caller throws it away; the receive loop.
- Uart.AddEscapeChar: what a copy beyond the frame overwrites, a failing allocation, and a length byte outside the buffer.
- CanCache.Canfd.UpdatePacket: extracting bits is a parameter; setting values, and copies of packets. The buffer of a signal of more than 64 bits is undefined until its packet first changes.
- CanCache.Canfd.Parse: the conversion of the identifier from network order; lookups by name.
