# GPI-Space in Dafny

Models of six parts of GPI-Space, each with the properties that make it worth having, proved for
all inputs, all runs or all interleavings.

* **The virtual-memory allocator** (`src/mmgr`). `tmmgr` keeps five redundant tables and two
  running totals about one arena; `dtmmgr` lets two arenas grow towards each other over the same
  memory. `Layout` says what a caller can see (live ranges and the gaps between them),
  `FreeTables` what the tables have to hold, `Arena` and `TwoArenas` what the operations do to the
  visible state, and `TmmgrModule` and `DtmmgrModule` are the classes.
* **rapidxml** (`external/rapidxml`). `XmlTree` has the printer and the parser as functions on
  text, `XmlRoundTrip`, `XmlBuilt` and `XmlNormal` relate them. `XmlGrammar` describes every way of
  writing a tree, `XmlDigits` the numbers that references spell; `XmlReads` and `XmlExact` show that
  the parser reads exactly these texts, `XmlPrinted` which of them the printer chooses. `XmlExpand`,
  `XmlInPlace` and `XmlParser` are the parser that overwrites its own input buffer, `XmlPrinter` the
  loops of the printer, and `Pool` the memory pool.
* **The stream slot protocol** (`src/drts/stream.cpp`). `StreamSlots` is a transition system of one
  producer and any number of consumers in which every shared memory access is a step;
  `StreamModule` is the producer.
* **The peer's queues** (`src/fhgcom`). `PeerQueues` is a transition system of the sections that
  run under the peer's mutex or on its strand, with user calls between them; `PeerRuns` has the
  theorems about runs, `PeerSent` says what is sent in terms of the events alone, `PeerCalls` is
  about the order in which receive handlers are called, and `PeerModule` has the methods.
* **IEEE/IBM floating point conversion** (`share/seis/swap_bytes.cpp`). `SeisFloats` has both
  formats and both conversions on words, `SeisConvert` the loops with their masks and shifts.
* **The text form of logging endpoints** (`src/logging`). `EndpointText` prints and parses,
  `EndpointGrammar` describes the texts that are read and printed, `EndpointParser` is the parser as
  it moves through the text.

`Wrappers` holds the option and result types, `Words` machine words and bit masks.

How the source is read:

* `fhg_assert` is taken in its exception mode; an assertion that can fail is an error result
  (`AssertionFailed`), and all others are proved to hold.
* Unsigned arithmetic that can wrap is written modulo 2^64 (`alignUp`, the code of a numeric
  character reference, the divisor of a stream's slot count); elsewhere the subset type `Word`
  obliges the proof to show that it does not, except where the last section says so. Alignments are powers of two; `Words.AlignedExactlyForPowersOfTwo` shows that nothing less
  will do.
* Where the source takes the first element of an unordered set (a free segment among equals, a
  free slot) the model takes any.
* A `char` of rapidxml is a byte. The parser runs with `parse_default`, the printer without
  indentation. Comments, instructions, declarations and document types are read over.
* What the network, the system's allocator and the other side of a shared buffer do is an event
  or a parameter.
* A user's handler of the peer is a number; the calls it makes are events of the run. The mutex
  is recursive, so calls made inside a completion handler of `handle_send` are allowed there.

Results that differ from what one might expect:

* A send that is accepted while the teardown of its connection is already calling receive handlers
  is lost without its completion handler being called (`PeerRuns.LateSendIsLost`);
  `PeerRuns.CompletedExactlyOnce` shows that this is the only case.
* Receive handlers are paired with messages in order of registration, but `async_recv` calls a
  paired handler after giving up the mutex, so two threads can call theirs the other way round
  (`PeerCalls.HandlersOvertake`); `PeerCalls.CallOrderExactly` gives the exact condition for calls
  in order, and `PeerCalls.SerialInOrder` shows that receiving one after the other meets it.
* The number of slots of a stream is a division by zero for the largest slot size
  (`StreamSlots.SlotsOrThrow`).
* The parser can build trees that do not survive printing and parsing: a reference to a blank
  becomes blank data (`XmlNormal.ReferenceToBlank`), and a reference to the zero character ends
  the printed text too early (`XmlNormal.ReferenceToNul`). `XmlNormal.RoundTrip` gives the exact
  condition for all trees, `XmlNormal.ParsedComesBack` for those the parser builds.
* A decimal character reference may have hexadecimal digits, which count with their values in base
  ten, and the code of a reference wraps modulo 2^64 (`XmlDigits.DecimalReference`). A closing tag may
  bear any name or none (`XmlGrammar.TagOk`, `XmlExact.DocumentExactly`).
* The parser turns references to surrogates into bytes that are not UTF-8
  (`XmlText.Utf8Decodes`).
* `float2ibm` reads subnormal numbers with a leading bit they do not have, so that all but those
  with mantissa 0x7ffffe change their value (`SeisFloats.SubnormalMisread`); the trip back makes
  them zero, and turns infinities and NaNs, which `float2ibm` takes for numbers, into the largest
  number (`SeisFloats.RoundTrip`). `ibm2float` does not end on a nonzero word with a zero fraction
  (`SeisFloats.DoublingEndsExactly`).
* A NUL inside a socket path is harmful to its text only behind a leading NUL
  (`EndpointText.RoundTripExactly`).

## Model

| member | source | states |
|---|---|---|
| `Words.AlignDownIsFloor` | src/mmgr/tmmgr.cpp:27-30 | the mask computes the largest multiple of a power of two not above the size |
| `Words.AlignUpIsCeiling` | src/mmgr/tmmgr.cpp:32-35 | rounding up gives the least multiple not below the size, and 0 exactly for 0 or when the addition wraps |
| `Words.AlignedExactlyForPowersOfTwo` | src/mmgr/tmmgr.cpp:27-30 | the masks give multiples of the alignment for every size if and only if it is a power of two |
| `FreeTables.Canonical` | src/mmgr/tmmgr.hpp:237-247 | memory size and live ranges determine all free tables, the free total and the high water mark |
| `FreeTables.RepresentsTiles` | src/mmgr/tmmgr.cpp:47-237 | in every valid state free segments and live ranges tile the memory, no two free segments touch, and the free total is the sum of the free sizes |
| `FreeTables.HighWaterAfterFree` | src/mmgr/tmmgr.cpp:186-189 | after freeing the topmost range, the start of the free segment to its left is the largest end of any live range |
| `FreeTables.TableAfterFree` | src/mmgr/tmmgr.cpp:191-236 | merging a freed range with its free neighbours gives exactly the maximal gaps of the new state |
| `FreeTables.TableAfterAlloc` | src/mmgr/tmmgr.cpp:131-161 | cutting the front off a free segment gives exactly the maximal gaps of the new state |
| `FreeTables.TableAfterResize` | src/mmgr/tmmgr.cpp:63-102 | moving the end of the last free segment gives exactly the maximal gaps of the new state |
| `Arena.AllocSucceedsExactly` | src/mmgr/tmmgr.cpp:105-162 | alloc succeeds exactly for a fresh handle and a positive, non-wrapping size that fits some gap |
| `Arena.ExactFitFills` | src/mmgr/tmmgr.cpp:121-132 | a request for which some gap is just right takes such a gap whole |
| `Arena.ResizeSucceedsExactly` | src/mmgr/tmmgr.cpp:47-61 | resize succeeds exactly down to the high water mark |
| `Arena.AllocStepPlaced` | src/mmgr/tmmgr.cpp:105-162 | a best-fit allocation keeps ranges inside the memory, aligned and pairwise disjoint |
| `TmmgrModule.Tmmgr.constructor` | src/mmgr/tmmgr.cpp:38-45 | a new arena is one free segment of the size rounded down, and valid |
| `TmmgrModule.Tmmgr.DeleteFreeSegment` | src/mmgr/tmmgr.cpp:239-263 | the three free indices stay in agreement; an error exactly when the segment is not there, and then nothing changes |
| `TmmgrModule.Tmmgr.InsertFreeSegment` | src/mmgr/tmmgr.cpp:265-275 | the three free indices stay in agreement and every insertion meets a fresh key |
| `TmmgrModule.Tmmgr.MoveEnd` | src/mmgr/tmmgr.cpp:63-102 | both branches of resize move the end of the last free segment, or add or remove it |
| `TmmgrModule.Tmmgr.Resize` | src/mmgr/tmmgr.cpp:47-103 | all tables again represent the live ranges, which are kept; the errors in their order |
| `TmmgrModule.FindLowerBound` | src/mmgr/tmmgr.cpp:120-129 | the smallest stored size that suffices is found |
| `TmmgrModule.Tmmgr.Carve` | src/mmgr/tmmgr.cpp:131-161 | the tables represent the live ranges with the new one; no assertion fails |
| `TmmgrModule.Tmmgr.Alloc` | src/mmgr/tmmgr.cpp:105-162 | a smallest sufficient gap is taken from its front and all tables follow, or one of the errors in their order and no change |
| `TmmgrModule.Tmmgr.Coalesce` | src/mmgr/tmmgr.cpp:191-236 | in all four cases the freed range and its free neighbours become one segment in all indices |
| `TmmgrModule.Tmmgr.Free` | src/mmgr/tmmgr.cpp:164-237 | exactly this range disappears and all tables and totals follow, or the handle is unknown and nothing changes |
| `TwoArenas.SqueezeFits` | src/mmgr/dtmmgr.cpp:36-58 | the space one arena leaves never cuts into the live ranges of the other |
| `DtmmgrModule.CrossResizeSucceeds` | src/mmgr/dtmmgr.cpp:36-58 | the resize of the other arena after an alloc or a free never throws |
| `TwoArenas.StepKeepsAbutting` | src/mmgr/dtmmgr.cpp:36-58 | every call keeps each arena's size equal to the whole memory minus the other's high water mark |
| `TwoArenas.BookIsHeld` | src/mmgr/dtmmgr.cpp:36-58 | what a caller recorded from the outcomes alone is exactly what the arenas hold, mirrored for the one growing down |
| `TwoArenas.EveryRunIsSafe` | src/mmgr/dtmmgr.cpp:36-58 | over every sequence of calls the ranges granted and not freed are pairwise disjoint, aligned and inside the memory |
| `TwoArenas.ArenasMeet` | src/mmgr/dtmmgr.cpp:35-57 | over every sequence of calls everything granted from below ends before everything granted from above begins; the high water marks are the largest end of the one and, from the end of the memory, the smallest offset of the other |
| `TwoArenas.FirstGrant` | src/mmgr/dtmmgr.cpp:35-51 | the first request of the arena growing up is served at offset 0, that of the other one at the end of the memory |
| `DtmmgrModule.Dtmmgr.constructor` | src/mmgr/dtmmgr.cpp:31-34 | both arenas start empty over the whole memory |
| `DtmmgrModule.Dtmmgr.Alloc` | src/mmgr/dtmmgr.cpp:36-52 | the call extends the run; a failed alloc changes neither arena; a range from below is returned as it is, one from above mirrored, without underflow |
| `DtmmgrModule.Dtmmgr.Free` | src/mmgr/dtmmgr.cpp:54-58 | the call extends the run; an unknown handle changes neither arena |
| `DtmmgrModule.Dtmmgr.MemFree` | src/mmgr/dtmmgr.hpp:45-50 | the larger of the two free totals; a request above it fails in either arena |
| `Restoring.AllocThenFree` | src/mmgr/tmmgr.cpp:105-237 | an alloc followed by a free of its handle restores every table and total |
| `Restoring.PairAllocThenFree` | src/mmgr/dtmmgr.cpp:36-58 | the same for the tables, totals and sizes of both arenas |
| `Restoring.FreeingCommutes` | src/mmgr/tmmgr.cpp:164-237 | freeing a set of handles in any order ends in the same tables |
| `Restoring.PairFreeingCommutes` | src/mmgr/dtmmgr.cpp:53-57 | freeing handles of both arenas in any order ends in the same sizes, totals and tables of both |
| `XmlText.Utf8Decodes` | external/rapidxml/rapidxml.hpp:1511-1554 | the inserted bytes decode to the code by section 3 of RFC 3629, and they are valid by its section 4 if and only if the code is no surrogate |
| `XmlText.RefLength` | external/rapidxml/rapidxml.hpp:1580-1690 | a reference is longer than the text it expands to |
| `XmlText.ExpandUndoesEscape` | external/rapidxml/rapidxml.hpp:1570-1718 | expansion gives back any text without zeros that the printer escaped, whatever follows |
| `XmlDigits.TableExactly` | external/rapidxml/rapidxml.hpp:2538-2560 | the table knows the hexadecimal digits of both cases with their values, and nothing else |
| `XmlDigits.CodeIsValue` | external/rapidxml/rapidxml.hpp:1651-1677 | for any digits the code is their positional value modulo 2^64 |
| `XmlDigits.HexReference` | external/rapidxml/rapidxml.hpp:1651-1663 | a hexadecimal reference stands for the encoding of its value, and is an error above the last code |
| `XmlDigits.DecimalReference` | external/rapidxml/rapidxml.hpp:1664-1677 | the same in base ten |
| `XmlDigits.EveryCodeHasReferences` | external/rapidxml/rapidxml.hpp:1649-1683 | the decimal and the hexadecimal numeral of every code, in either case, refer to it, whatever follows |
| `XmlReads.ChunksRead` | external/rapidxml/rapidxml.hpp:1570-1718 | character data with any mix of references and bare ampersands is expanded to what it means |
| `XmlReads.MarkupRead` | external/rapidxml/rapidxml.hpp:2037-2163 | every way of writing an element, with any white space, quotes and references, and everything that is read over, is read as what it means |
| `XmlExact.NodeExactly` | external/rapidxml/rapidxml.hpp:2081-2163 | a text is read as a node, or as none, if and only if it is a way of writing it |
| `XmlExact.DocumentExactly` | external/rapidxml/rapidxml.hpp:1381-1411 | a text is read as a document if and only if it is a way of writing its nodes; all other texts are errors |
| `XmlExact.FirstVisible` | external/rapidxml/rapidxml.hpp:1979-1983 | an element's value is its first data that does not begin with a zero |
| `XmlExact.LastHidden` | external/rapidxml/rapidxml.hpp:1979-1983 | where there is none, it is the last data, or nothing |
| `XmlPrinted.EscapeWrites` | external/rapidxml/rapidxml_print.hpp:47-81 | exactly the five special characters but the exempt one are written, as their named entities |
| `XmlPrinted.NodeForm` | external/rapidxml/rapidxml_print.hpp:107-294 | which way of writing is printed: one blank before each attribute, double quotes unless the value has one, self-closing exactly without value and children, nothing between tags |
| `XmlExpand.Skip` | external/rapidxml/rapidxml.hpp:1558-1564 | the first character outside a class is found |
| `XmlExpand.InsertCodedCharacter` | external/rapidxml/rapidxml.hpp:1511-1554 | the encoding of a code is written and nothing else; codes above the last one are errors |
| `XmlExpand.NumericReference` | external/rapidxml/rapidxml.hpp:1649-1683 | one numeric reference is expanded in place, for any number of digits; its code is the one of `XmlDigits.CodeIsValue` |
| `XmlExpand.SkipAndExpand` | external/rapidxml/rapidxml.hpp:1570-1718 | expansion inside the buffer equals expansion of the original text into a fresh string, and the rest of the buffer is untouched |
| `XmlInPlace.ParseAttributes` | external/rapidxml/rapidxml.hpp:2237-2298 | the attributes shown by the overwritten buffer are those of the original text; the errors agree |
| `XmlParser.SkipDoctype` | external/rapidxml/rapidxml.hpp:1814-1876 | nested brackets are matched up to the closing '>' |
| `XmlParser.ParseCDataAt` | external/rapidxml/rapidxml.hpp:1998-2033 | the section up to the first `]]>` |
| `XmlParser.AppendData` | external/rapidxml/rapidxml.hpp:1940-1994 | data are expanded in place and the first of them becomes the element's value |
| `XmlParser.ParseContentsAt` | external/rapidxml/rapidxml.hpp:2167-2233 | the children shown by the buffer are those of the original text, and nothing outside is touched |
| `XmlParser.ParseElementAt` | external/rapidxml/rapidxml.hpp:2037-2077 | the element shown by the buffer is that of the original text |
| `XmlParser.ParseNodeAt` | external/rapidxml/rapidxml.hpp:2081-2163 | the node after a '<', or what is read over |
| `XmlParser.Parse` | external/rapidxml/rapidxml.hpp:1381-1411 | the tree shown by the overwritten buffer is the tree of the text it held, and errors are raised exactly where the text has none |
| `XmlRoundTrip.NodeParses` | external/rapidxml/rapidxml.hpp:2037-2233 | a printed node parses to its normal form and leaves what follows |
| `XmlNormal.RoundTrip` | external/rapidxml/rapidxml_print.hpp:107-294 | parsing a printable element's text gives its normal form; of all elements exactly those come back that are printable and have no blank data, no adjacent data and their first data as value |
| `XmlNormal.ParsedComesBack` | external/rapidxml/rapidxml.hpp:2081-2163 | of the nodes the parser builds exactly those come back whose text holds no zero and that are plain |
| `XmlNormal.DocumentRoundTrip` | external/rapidxml/rapidxml_print.hpp:107-174 | a printed document parses to its nodes' normal forms; of all documents exactly those come back that hold printable, plain elements and CDATA sections only |
| `XmlBuilt.NodeBuilt` | external/rapidxml/rapidxml.hpp:2037-2233 | whatever the text, parsing reads no zero, and names and CDATA sections it builds can be printed |
| `XmlBuilt.DocumentBuilt` | external/rapidxml/rapidxml.hpp:1381-1411 | the same for documents, which end at a zero and have no data at the top |
| `XmlBuilt.BuiltPrintable` | external/rapidxml/rapidxml_print.hpp:107-294 | a tree that was built and prints without a zero is printable |
| `XmlNormal.ReferenceToBlank` | external/rapidxml/rapidxml.hpp:1940-1994 | a tree the parser builds, with blank data that printing and parsing loses |
| `XmlNormal.ReferenceToNul` | external/rapidxml/rapidxml.hpp:1940-1994 | a tree the parser builds, with a zero at which its text ends too early |
| `XmlPrinter.CopyAndExpandChars` | external/rapidxml/rapidxml_print.hpp:47-81 | the output is extended by the escaped text |
| `XmlPrinter.FindChar` | external/rapidxml/rapidxml_print.hpp:94-100 | found exactly if it occurs |
| `XmlPrinter.WriteAttributes` | external/rapidxml/rapidxml_print.hpp:178-204 | the output is extended by the attributes' text, each in quotes its value does not contain unescaped |
| `XmlPrinter.WriteNode` | external/rapidxml/rapidxml_print.hpp:107-165 | the output is extended by the node's text |
| `XmlPrinter.WriteElement` | external/rapidxml/rapidxml_print.hpp:242-294 | the output is extended by the element's text, by the three forms the printer knows |
| `Pool.AlignIsCeiling` | external/rapidxml/rapidxml.hpp:573-577 | for a power of two, the least aligned address not below the given one |
| `Pool.GrownKeeps` | external/rapidxml/rapidxml.hpp:602-625 | a new block keeps all handed out memory in place, and its slack suffices for header, alignment and the request |
| `Pool.SlackIsLeast` | external/rapidxml/rapidxml.hpp:611-612 | the slack of a new block is the least that always suffices |
| `Pool.HandedKeeps` | external/rapidxml/rapidxml.hpp:627-630 | handed out memory is aligned, inside its block, clear of headers and disjoint from everything handed out before |
| `Pool.MemoryPool.constructor` | external/rapidxml/rapidxml.hpp:566-571 | an empty pool on its static memory |
| `Pool.MemoryPool.AllocateAligned` | external/rapidxml/rapidxml.hpp:599-631 | the invariant of all handed out memory holds with the result added, which is the next aligned address; a new block exactly when the current one is too small |
| `Pool.MemoryPool.Clear` | external/rapidxml/rapidxml.hpp:525-537 | every dynamic block is freed once, the latest first, and the pool is as new |
| `StreamSlots.SlotsOrThrow` | src/drts/stream.cpp:44-57 | the most slots that fit the buffer together with their flag bytes; too small exactly when one slot and its flag do not fit, and a division by zero exactly for the largest slot size, where the divisor wraps |
| `StreamSlots.Toggled` | src/drts/stream.cpp:211-216 | the written flag differs from the old one, whatever it is, and their sum is 1 modulo 256 |
| `StreamSlots.ToggledTwice` | src/drts/stream.cpp:211-216 | toggling is an involution that exchanges 0 and 1 |
| `StreamSlots.NextKeeps` | src/drts/stream.cpp:108-216 | every step of producer and consumers keeps the invariant |
| `StreamSlots.TokensKeepTheirSlots` | src/drts/stream.cpp:108-216 | over every interleaving unacknowledged tokens have different slots and numbers, slot i at i times the slot size holds the bytes that were written, and its flag byte behind the slots the flag of the token |
| `StreamSlots.NumberedInOrder` | src/drts/stream.cpp:178 | tokens are numbered in the order of publication |
| `StreamSlots.NoSlotIsLost` | src/drts/stream.cpp:108-216 | over every interleaving each slot is in exactly one of free, outstanding, released but unseen, or being filled |
| `StreamSlots.RefusedExactlyWhenAllOut` | src/drts/stream.cpp:123-150 | "No more free slots" is raised exactly when every slot was unacknowledged when its flag byte was read |
| `StreamSlots.WritesStayInTheirSlot` | src/drts/virtual_memory.cpp:75-82 | the range checks pass and no write touches a slot that is out |
| `StreamModule.Producer.constructor` | src/drts/stream.cpp:59-92 | a run of the protocol starts with all slots free and the flags found in the buffer |
| `StreamModule.Producer.Create` | src/drts/stream.cpp:44-57 | construction succeeds exactly when one slot and its flag fit, divides by zero exactly for the largest slot size, and says what is required otherwise |
| `StreamModule.Producer.MergeUpdate` | src/drts/stream.cpp:134-141 | exactly the slots whose flag changed become free |
| `StreamModule.Producer.Write` | src/drts/stream.cpp:108-181 | a write continues the run since creation by steps of its own; it succeeds exactly when the data fit and some slot is not out, into a slot that is not out, and says which of the two was missing |
| `StreamModule.Producer.MarkFree` | src/drts/stream.cpp:211-216 | an acknowledgement continues the run by one step, which changes the flag byte of the slot and nothing else |
| `PeerQueues.StepKeeps` | src/fhgcom/peer.cpp:296-465 | every step of mutex and strand keeps the invariant of all connections and of the receiving side |
| `PeerRuns.OneInFlight` | src/fhgcom/peer.cpp:387-465 | on a connection that is not torn down at most one message is below the queue, it is the front's, and written, in flight and waiting messages are the accepted ones in order |
| `PeerRuns.WireOrder` | src/fhgcom/connection.cpp:300-366 | what was written is always an initial part of what was accepted, with the hello first on the connecting side and nowhere else |
| `PeerRuns.CompletionOrder` | src/fhgcom/peer.cpp:387-443 | completion handlers are called in order of acceptance, and success is reported only for written messages |
| `PeerRuns.CompletedAtMostOnce` | src/fhgcom/peer.cpp:296-443 | no completion handler is called twice, also not when a send is refused, and the queues are never found inconsistent |
| `PeerRuns.CompletedExactlyOnce` | src/fhgcom/peer.cpp:589-644 | after teardown every handler has been called if and only if no send was accepted after the queue had been drained; exactly those late ones are not called |
| `PeerRuns.LateSendIsLost` | src/fhgcom/peer.cpp:622-641 | a run in which such a handler is never called |
| `PeerRuns.ReceiveOrder` | src/fhgcom/peer.cpp:328-366 | receive handlers are paired, with a message or an error, in order of registration, each once; those turned away while stopping come after all others; waiting messages and waiting handlers never coexist |
| `PeerRuns.ArrivalOrder` | src/fhgcom/peer.cpp:556-641 | messages are paired with handlers in order of arrival, each once; only those addressed to a failed peer can be dropped |
| `PeerRuns.TeardownDrops` | src/fhgcom/peer.cpp:614-623 | a teardown drops the waiting messages addressed to its peer, all of them and no others |
| `PeerSent.SentAsGiven` | src/fhgcom/peer.cpp:296-385 | over every run the messages and handlers accepted on a connection are read off the events: the hello, then the data of the sends made while it stood and the peer was not stopping; what is written is an initial part of these messages; the sends refused are those made while stopping |
| `PeerSent.OutgoingFromTo` | src/fhgcom/peer.cpp:368-385 | all of them go from this peer to the other side, and a hello has no data |
| `PeerCalls.CallOrderExactly` | src/fhgcom/peer.cpp:328-366 | every paired handler is called at most once; the calls are the first pairings, in order of registration, if and only if no handler is called while one paired earlier is still uncalled |
| `PeerCalls.SerialInOrder` | src/fhgcom/peer.cpp:354-364 | the calls are in order of registration when no receive starts before the previous one has called its handler |
| `PeerCalls.HandlersOvertake` | src/fhgcom/peer.cpp:354-364 | a run in which two threads call their handlers the other way round |
| `PeerModule.PeerService.constructor` | src/fhgcom/peer.hpp:153-174 | the initial state of the transition system |
| `PeerModule.PeerService.AsyncSend` | src/fhgcom/peer.cpp:296-326 | one step; queued, refused while stopping, or an unknown address, exactly when |
| `PeerModule.PeerService.TakePending` | src/fhgcom/peer.cpp:338-360 | the step under the mutex: the first waiting message is paired and no handler called, or the handler waits, or it is turned away |
| `PeerModule.PeerService.AsyncRecv` | src/fhgcom/peer.cpp:328-366 | one step under the mutex, which pairs the first waiting message, waits or, while stopping, turns the handler away; a second step, after the mutex is given up, calls the paired handler |
| `PeerModule.PeerService.HandleUserData` | src/fhgcom/peer.cpp:556-587 | one step; the first waiting receive handler is called with the message, or the message waits |
| `PeerModule.PeerService.ConnectionEstablished` | src/fhgcom/peer.cpp:368-385 | one step: the hello, from this peer to the other and without data, goes first and its transfer starts |
| `PeerModule.PeerService.HandleWrite` | src/fhgcom/connection.cpp:329-348 | a completed write and the next transfer are two steps, and nothing more happens for a forgotten connection |
| `PeerModule.PeerService.HandleError` | src/fhgcom/peer.cpp:589-644 | a teardown is this sequence of steps; every queued send fails in order, then every waiting receive, and the messages for that peer are dropped |
| `SeisFloats.DoublingEndsExactly` | share/seis/swap_bytes.cpp:79-81 | the shift loop of ibm2float ends exactly for a nonzero fraction, within 23 rounds |
| `SeisFloats.RoundTrip` | share/seis/swap_bytes.cpp:41-90 | for every word: normal numbers keep sign and exponent and lose exactly the low (2 - exponent) mod 4 mantissa bits; what becomes of all others |
| `SeisFloats.RoundTripExactly` | share/seis/swap_bytes.cpp:41-90 | the trip through the IBM format is exact if and only if the word is zero or normal with these bits clear |
| `SeisFloats.ReverseTripExactly` | share/seis/swap_bytes.cpp:41-90 | the trip from the IBM format and back is exact if and only if the word is zero or normalized with its exponent in range |
| `SeisFloats.ToIbmTruncates` | share/seis/swap_bytes.cpp:41-63 | a normal number is kept but for the bits shifted out, towards zero, and exactly kept if and only if they are clear |
| `SeisFloats.SubnormalMisread` | share/seis/swap_bytes.cpp:41-63 | of the words with exponent 0 only zero and the mantissa 0x7ffffe keep their number |
| `SeisFloats.FromIbmExact` | share/seis/swap_bytes.cpp:66-90 | where the result is a normal number it is the same number |
| `SeisFloats.FromIbmBySize` | share/seis/swap_bytes.cpp:77-86 | by the size of the number: below the least normal one the result is zero, from 2^128 on the largest number of its sign, in between the same number |
| `SeisFloats.ExtremeSizes` | share/seis/swap_bytes.cpp:82-84 | that largest number is the largest there is and below 2^128 |
| `SeisFloats.One` | share/seis/swap_bytes.cpp:41-90 | 1.0 is 0x3f800000 and 0x41100000, and is stored as 0x00001041 in reversed order |
| `SeisConvert.ConvertToIbm` | share/seis/swap_bytes.cpp:47-54 | masks, shifts and loop compute the conversion of one word |
| `SeisConvert.ConvertFromIbm` | share/seis/swap_bytes.cpp:77-86 | the same for the other direction, with overflow and underflow |
| `SeisConvert.ReverseBytes` | share/seis/swap_bytes.cpp:73-75 | the shifts and masks swap the four bytes of a word as one group |
| `SeisFloats.BytesOnly` | share/seis/swap_bytes.cpp:73-75 | a word is determined by its four bytes, so the statements about bytes fix the words |
| `SeisFloats.ReversedBytes` | share/seis/swap_bytes.cpp:73-75 | the bytes come in the opposite order |
| `SeisConvert.ReversedSwaps` | share/seis/swap_bytes.cpp:56-58 | reversing a word is what swap_bytes does to one group of four |
| `SeisFloats.ReversedTwice` | share/seis/swap_bytes.cpp:73-75 | reversing twice restores the word |
| `SeisConvert.Float2Ibm` | share/seis/swap_bytes.cpp:41-63 | exactly the first n words are converted, and their bytes swapped where the machine is little-endian |
| `SeisConvert.Ibm2Float` | share/seis/swap_bytes.cpp:66-90 | exactly the first n words are converted, from swapped bytes where the machine is little-endian |
| `SeisConvert.StoredAndLoaded` | share/seis/swap_bytes.cpp:41-90 | what float2ibm stores is always accepted by ibm2float, and comes back unchanged under the exact condition, in either byte order |
| `SeisConvert.SwapBytes` | share/seis/swap_bytes.cpp:19-32 | each group of bytes is reversed in place and nothing else changes |
| `SeisConvert.SwappedTwice` | share/seis/swap_bytes.cpp:19-32 | swapping twice restores the bytes |
| `EndpointText.StoIOfDecimal` | src/logging/tcp_endpoint.cpp:57-62 | the printed port is read back completely |
| `EndpointText.OnlyNumeral` | src/logging/tcp_endpoint.cpp:82-85 | the printed port is the only numeral of its number without a leading zero |
| `EndpointText.RoundTripExactly` | src/logging/endpoint.cpp:143-217 | reading an endpoint's text gives the endpoint back if and only if hosts and path satisfy the stated conditions, for all three shapes |
| `EndpointText.TcpBlockExactly` | src/logging/tcp_endpoint.cpp:42-85 | a block holds a TCP endpoint's text if and only if its host is nonempty and free of ':' and ">>" |
| `EndpointText.SocketBlockExactly` | src/logging/socket_endpoint.cpp:47-95 | the same for a socket, with its escaped path |
| `EndpointGrammar.ParseExactly` | src/logging/endpoint.cpp:143-192 | a text is read as an endpoint if and only if it spells it: one block, or both in either order with a comma |
| `EndpointGrammar.TcpExactly` | src/logging/tcp_endpoint.cpp:42-80 | a block spells a TCP endpoint if and only if it is a host, a colon and what std::stoi takes for a port number |
| `EndpointGrammar.SocketExactly` | src/logging/socket_endpoint.cpp:47-84 | a block spells a socket if and only if it is a host, a colon and a path, with `\0` for the abstract namespace |
| `EndpointGrammar.PrintedTcp` | src/logging/tcp_endpoint.cpp:82-85 | the printed text, with the port in decimal without leading zeros |
| `EndpointGrammar.PrintedSocket` | src/logging/socket_endpoint.cpp:86-95 | the printed text, with a leading NUL as `\0` and what a C string shows of the rest |
| `EndpointGrammar.PrintedBoth` | src/logging/endpoint.cpp:200-217 | the TCP endpoint comes first |
| `EndpointParser.ReadUntilClose` | src/logging/endpoint.cpp:69-81 | the text up to the first ">>" |
| `EndpointParser.RequireString` | src/logging/endpoint.cpp:106-117 | succeeds exactly if the text is there |
| `EndpointParser.ParseEndpoint` | src/logging/endpoint.cpp:143-192 | moving through the text computes the parse |

## Left out

- rapidxml's other flags (trimming, normalizing, comment, declaration and instruction nodes), indentation, wide characters, iterators and file loading.
- XmlParser.Parse: sibling and parent pointers are not modelled; a parsed tree is a tree of slices of the buffer.
- Pool.MemoryPool.AllocateAligned: addresses are unbounded, so a request near the size of the address space, whose block size would wrap, is not modelled.
- Pool: user-defined allocation functions, cloning nodes and the pool's string and node constructors.
- StreamSlots: writes are serialized, no slot is out when the stream is created, and a consumer acknowledges each token at most once with the flag it was given; the transfer of a range is a copy byte by byte.
- StreamSlots.TokensKeepTheirSlots: the sequence number is unbounded; in the source it would wrap after 2^64 writes.
- PeerQueues: SSL, name resolution, socket options and thread start-up. A connection exists for its address once, is used only after it is established, and addresses are not used again; two peers connecting to each other at the same time are not modelled.
- PeerModule.PeerService.AsyncRecv: the method takes its two steps without another thread in between; `TakePending` and `CallPaired` are the steps that others can separate, and the transition system covers all such runs.
- PeerModule.PeerService.HandleError: the method runs with handlers that make no calls; calls inside handlers are covered by the transition system.
- SeisConvert.Ibm2Float: requires that nonzero words have a nonzero fraction, since the source does not end otherwise.
- SeisConvert: the byte order test and the SEG-Y files around the conversions.
- EndpointText: the length limit of a socket path, which the system's socket type enforces, and the choice of the best endpoint for a host.
- The workflow engine, the RPC layer, `memcpy_and_wait` and GASPI themselves, command-line tools and the user interface.
