# Verified models of the FACE utilities

Dafny models of the parts of the repository in which most can go wrong, with proofs about every input,
every run or every reachable state.

- The XML engine of `tinyxml2`. `XmlParser.dfy`, `Decode.dfy` and `CharRef.dfy` specify parsing, the lazy
  decoding of strings and character references as functions of the text. `XmlDocument.dfy` and
  `StrPairs.dfy` are the code that steps through one mutable buffer, proved against them. `Layout.dfy` describes
  documents by their layout and meaning, without the parser's functions, and proves that every one of them is
  read as what it means; `Spelling.dfy` does the same for the strings in them, and `Faults.dfy` says which error a
  faulty document gets. `XmlPrinter.dfy` is the printer of the trees of `XmlTree.dfy`; `Escape.dfy` and
  `RoundTrip.dfy` prove that the parser undoes it, `Reparse.dfy` that what was
  parsed from any text survives printing and parsing again. `ParserFacts.dfy` says what an accepted document
  guarantees. `MemPool.dfy` is the free-list allocator, `Dom.dfy` the linked tree,
  `DynArray.dfy` the SwapRemove both parser and tree use.
- The scheduler. `Scheduler.dfy` is a transition system in which every compare-exchange, status load and
  section under a mutex is one step, `Shutdown.dfy` its destructor, `TimerHeap.dfy` the heap in its vector with
  the drain loop, `DrainAgrees.dfy` the agreement of the two, and
  `TaskRunner.dfy` the worker pool with its condition variable.
- The growable buffers of sections K.2.2 and K.2.3 of the FACE Technical Standard 3.2, `FaceSequence.dfy` and
  `FaceString.dfy`, with the 32-bit growth in `FaceTypes.dfy`.
- The callback bookkeeping, `Connections.dfy` and `Requester.dfy`, whose handlers may call back into the
  same object: a run is a tree of nested calls. The classes are proved against what such a run does to a list of
  registrations, or to the transport, without their counters and maps.

`dafny verify dfyconfig.toml` checks everything.

Where the code does not do what its documentation or the standard it reads says, the model follows the code:

- An unknown `&` is stepped over without being written, so once something has shrunk the result shows an
  older byte (`Decode.StaleByte`); `Decode.CleanIff` and `Decode.UnshrunkIsVerbatim` say when it does not.
  `&#` at the end of a string drops the ampersand (`Decode.HashAtEnd`).
- The multiplier of character references saturates: `&#x1000000;` is accepted as U+10FFFF, and `&#;` is NUL
  (`CharRef.DigitReference`). Of the numbers above 0x10FFFF exactly the powers of the base are accepted
  (`Spelling.NumberIsRead`). Text before the nearest `#` or `x` is skipped, so `&#junk#65;` is `A`
  (`CharRef.JunkIsSkipped`); `CharRef.AcceptedIff` says of every text what becomes of it.
- `</a/>` is read as a sealed element (`RoundTrip.SealedClosingTag`); `RoundTrip.ClosesIff` says which tags
  close. A stray closing tag ends the document:
  `RoundTrip.TailIgnoredIff` says which texts behind a document are ignored.
- `Cancel` of a repeating task can be lost (`Scheduler.CancelCanBeLost`); `Scheduler.LostCancel` says when.
- Under the Queue policy an overlapping invocation is enqueued, but dropped by its worker
  (`Scheduler.QueueDrops`); `Scheduler.DroppedIff` says when. So it never runs concurrently with itself.
- The runner's destructor does run what is queued (`TaskRunner.AllDone`, `TaskRunner.DestructorReturns`).
- `Sequence` may end up managing a buffer it does not own (`FaceSequence.AdoptForeign`);
  `FaceSequence.Sequence.Assign` says when.
- The last flush of `PrintString` covers at most INT_MAX bytes (`XmlPrinter.OverlongIsCut`);
  `XmlPrinter.KeptIff` says when nothing is lost.
- The drain loop ends exactly when every due item that repeats with a period of zero or less belongs to a task
  that is cancelled sooner or later (`TimerHeap.DrainEndsIff`). Cancelling another task does not help
  (`TimerHeap.CancelledElsewhere`).

Preconditions stand for what callers must provide and the code does not check: positive periods for the
due items of tasks that are never cancelled, no insertion of a node below itself, no `InsertAfterChild` of the last child behind
its predecessor, no doubling of a full capacity of 2^31 or more, which would wrap, no room for 2^32 - 1
characters and a NUL, no growth while a buffer is appended to itself and no assignment from a string that shares the
memory about to be freed, transaction ids that are not in use, and no callback from inside
Register_Callback. A transaction id is in use until the handler of its response has returned; the transport is
taken to refuse a request rather than accept it under an id in use, and `Requester.Connection.StoreAnyway` shows
what an acceptance would do.

## Model

| member | source | states |
|---|---|---|
| `RoundTrip.DocumentRoundTrip` | face-utils/src/tinyxml2.cpp:1078-1192 | every document, a non-empty list of valid trees nested at most 498 deep, is read back from its compact print as the same trees with the same decoded values |
| `Reparse.DepthIsExact` | face-utils/src/tinyxml2.cpp:2574-2580 | a valid list is read back from its compact print exactly when it is nested at most 498 deep |
| `RoundTrip.PrintIsInjective` | face-utils/src/tinyxml2.cpp:2674-2881 | two valid documents with the same compact print are the same document |
| `Reparse.ParsePrintParse` | face-utils/src/tinyxml2.cpp:1078-1192 | for any text accepted under any settings, in which no reference spells out a CR, no text is blank once decoded and no text stands at either end of the document: the escaping print of what was parsed is parsed to the same trees |
| `RoundTrip.StrayClosingTag` | face-utils/src/tinyxml2.cpp:1158-1165 | a closing tag behind a printed document ends the parse without an error; whatever follows it is ignored |
| `RoundTrip.TailIgnoredIff` | face-utils/src/tinyxml2.cpp:1158-1165 | text behind a printed document leaves the result as it is exactly when it is white space or begins with a closing tag |
| `RoundTrip.SealedClosingTag` | face-utils/src/tinyxml2.cpp:2087-2105 | `</name/>` is accepted as a document of one element, for every name |
| `RoundTrip.ClosesIff` | face-utils/src/tinyxml2.cpp:2081-2105 | a tag is handed to its parent as a closing one exactly when a slash and a name follow its `<` and its attributes end in `>` |
| `Layout.LaidIsRead` | face-utils/src/tinyxml2.cpp:2558-2572 | every layout of every document is accepted, in all modes, and read as what it means: white space between and inside tags, either quote, sealed and empty elements, byte order mark, declarations, DTD parts, CDATA and comments |
| `Layout.ReadsItems` | face-utils/src/tinyxml2.cpp:1095-1190 | the loop over children reads a list in any layout node by node, whatever follows it |
| `Layout.ReadsItem` | face-utils/src/tinyxml2.cpp:1095-1190 | one round: the node behind any white space, as what it means |
| `Layout.ReadsElement` | face-utils/src/tinyxml2.cpp:2081-2106 | an element in any layout, with its children and closing tag |
| `Layout.ReadAttrs` | face-utils/src/tinyxml2.cpp:1965-2022 | attributes in any layout are read in order, whatever follows them |
| `Layout.ReadAttr` | face-utils/src/tinyxml2.cpp:1448-1473 | white space around the equals sign and either quote |
| `Layout.ReadsClose` | face-utils/src/tinyxml2.cpp:2088-2103 | a closing tag behind white space, with white space inside it, is handed to the enclosing element with its name |
| `Layout.FindsMark` | face-utils/src/tinyxml2.cpp:698-775 | a tag or mark is identified behind any white space, in every mode and also as the first child |
| `Layout.FindsText` | face-utils/src/tinyxml2.cpp:1239-1263 | text starts where its white space does and ends at the next tag |
| `Layout.ReadsLeaf` | face-utils/src/tinyxml2.cpp:1304-1312 | CDATA, comments, declarations and unknowns end at their first closing mark |
| `Spelling.NumberIsRead` | face-utils/src/tinyxml2.cpp:463-552 | the numeral of any number, written by repeated division in either base and case: a code point is read whole and as itself, a larger power of the base as 0x10FFFF, any other number not at all |
| `Spelling.EntityIsRead` | face-utils/src/tinyxml2.cpp:333-352 | each of the five references of section 4.6 of XML 1.0 between any plain bytes is read as its character |
| `Spelling.SegmentsAreRead` | face-utils/src/tinyxml2.cpp:274-372 | any string of plain bytes, entities, numeric references and newlines of all four kinds is read as what it means, with and without references and collapsing |
| `Spelling.PlacesRead` | face-utils/src/tinyxml2.cpp:1239-1473 | what is processed where: newlines everywhere, references in text and attributes if the settings say so, collapsing in text only |
| `Spelling.PrintedAs` | face-utils/src/tinyxml2.cpp:2674-2726 | which bytes are printed as which reference, in text and in attributes |
| `Faults.FaultIsReported` | face-utils/src/tinyxml2.cpp:1078-1192 | a missing closing mark, text without a tag behind it, a late declaration, a tag without a name, a malformed, unended or repeated attribute, junk in a tag, an element not closed, closed by another name or nested too deep: at any nesting, behind any nodes and whatever follows, the document is rejected with the error of the fault |
| `Faults.BlankIsEmpty` | face-utils/src/tinyxml2.cpp:2564-2570 | white space and a byte order mark alone are an empty document |
| `XmlPrinter.PrintAndParse` | face-utils/src/tinyxml2.cpp:2758-2881 | printing a document whose strings have no over-long runs and parsing the result gives the document back |
| `XmlPrinter.XMLPrinter.Visit` | face-utils/src/tinyxml2.cpp:2149-2160 | visiting a tree appends exactly its compact print, after the seal of an open tag; the stack is as before |
| `XmlPrinter.XMLPrinter.VisitAll` | face-utils/src/tinyxml2.cpp:778-789 | visiting the children of a node appends their prints in order |
| `XmlPrinter.XMLPrinter.PrintString` | face-utils/src/tinyxml2.cpp:2674-2726 | the loop that flushes runs between entities appends the byte-wise escape of all that the last flush keeps |
| `XmlPrinter.XMLPrinter.FlushRun` | face-utils/src/tinyxml2.cpp:2689-2694 | a run before an entity is flushed completely, in chunks of at most INT_MAX |
| `XmlPrinter.XMLPrinter.FlushTail` | face-utils/src/tinyxml2.cpp:2717-2721 | the last flush writes one chunk of at most INT_MAX bytes |
| `XmlPrinter.XMLPrinter.PrintEntity` | face-utils/src/tinyxml2.cpp:2695-2704 | the reference of the first table entry with the byte |
| `XmlPrinter.XMLPrinter.HasFlag` | face-utils/src/tinyxml2.cpp:2683-2688 | the table look-up says exactly which bytes are escaped in their place |
| `XmlPrinter.XMLPrinter.constructor` | face-utils/src/tinyxml2.cpp:2588-2615 | the flag tables mark exactly the bytes to be escaped in attributes and in text |
| `XmlPrinter.XMLPrinter.CloseElement` | face-utils/src/tinyxml2.cpp:2830-2855 | an element without content is sealed, any other gets the closing tag of the name on the stack |
| `XmlPrinter.XMLPrinter.PushAttribute` | face-utils/src/tinyxml2.cpp:2771-2779 | appends the attribute with its escaped value |
| `XmlPrinter.XMLPrinter.PushText` | face-utils/src/tinyxml2.cpp:2868-2881 | seals the open tag and appends the text, escaped or as CDATA |
| `XmlPrinter.KeptIff` | face-utils/src/tinyxml2.cpp:2717-2721 | a printed string reads back as itself exactly when the run after its last escaped byte is at most INT_MAX long |
| `XmlPrinter.OverlongIsCut` | face-utils/src/tinyxml2.cpp:2717-2721 | of INT_MAX + 1 plain letters the last one is not printed and does not come back |
| `XmlPrinter.CutKeeps` | face-utils/src/tinyxml2.cpp:2717-2721 | a tree is printed in full exactly when none of its strings has an over-long last run |
| `Escape.EscapedIsClean` | face-utils/src/tinyxml2.cpp:2674-2726 | escaped text has no delimiter of its place, and no NUL or CR that was not in the original |
| `Escape.ValueOfEscaped` | face-utils/src/tinyxml2.cpp:274-372 | reading an escaped string gives the original, for every string without NUL and CR |
| `Escape.SpelledIs` | face-utils/src/tinyxml2.cpp:333-352 | the reader recognises the very entity the printer wrote |
| `ParserFacts.AcceptedIsWellFormed` | face-utils/src/tinyxml2.cpp:1078-1192 | in every accepted document each element was sealed or closed by an equal name, attribute names are distinct, text nodes are never adjacent, and all strings own disjoint closed ranges |
| `ParserFacts.DeclarationsFirst` | face-utils/src/tinyxml2.cpp:1124-1153 | in every accepted document declarations come before all else, and no element at any depth has one inside |
| `ParserFacts.ElementFacts` | face-utils/src/tinyxml2.cpp:1156-1186 | element type match of section 3 of XML 1.0, and where an element's strings lie |
| `ParserFacts.AttrsAreDistinct` | face-utils/src/tinyxml2.cpp:1984-1988 | unique attribute names (section 3.1 of XML 1.0) for every accepted tag |
| `ParserFacts.AttrsChain` | face-utils/src/tinyxml2.cpp:1448-1473 | names and values of a tag own disjoint closed ranges in order |
| `ParserFacts.LoopFacts` | face-utils/src/tinyxml2.cpp:1095-1190 | the same for a list of children, up to the byte the cursor stands on |
| `XmlParser.ParseAttrs` | face-utils/src/tinyxml2.cpp:1965-2022 | the cursor advances past the tag, and the attributes lie in the text |
| `XmlParser.ParseElement` | face-utils/src/tinyxml2.cpp:2081-2106 | the cursor advances and the recursion is never entered at depth 500 |
| `XmlParser.Identify` | face-utils/src/tinyxml2.cpp:698-775 | the cursor never goes back, and only text starts where the white space began |
| `XmlParser.Find` | face-utils/src/tinyxml2.cpp:200-222 | the first occurrence of the terminator |
| `XmlParser.NameEnd` | face-utils/src/tinyxml2.cpp:225-242 | the end of the maximal name |
| `XmlDocument.XMLDocument.Parse` | face-utils/src/tinyxml2.cpp:2455-2483 | for every byte string and mode: result and error are those of the specification on the text before the first NUL, depth is 0, no node stays unlinked, every node created is in the tree or was given back once, and after success all strings can be read |
| `XmlDocument.XMLDocument.NodeParseDeep` | face-utils/src/tinyxml2.cpp:1078-1192 | the list of children is the specified one, depth counter and unlinked list are restored on every path, the nodes alive are those before and those linked, nothing outside the bytes read is written |
| `XmlDocument.XMLDocument.Settle` | face-utils/src/tinyxml2.cpp:1113-1189 | on each way out of a round (null, misplaced declaration, closing tag, mismatch, insertion) the child leaves the list of unlinked nodes, and is deleted with what is below it or linked; the names are compared exactly when there is an end tag |
| `XmlDocument.XMLDocument.ElementParseDeep` | face-utils/src/tinyxml2.cpp:2081-2106 | once its parent has checked it, the element is the specified one; its strings are where they were read, names not yet terminated |
| `XmlDocument.XMLDocument.CompareNames` | face-utils/src/tinyxml2.cpp:1168-1180 | terminating and comparing the two names changes two bytes only |
| `XmlDocument.XMLDocument.PushDepth` | face-utils/src/tinyxml2.cpp:2574-2580 | the depth error is set exactly at 500 |
| `XmlDocument.XMLDocument.MarkInUse` | face-utils/src/tinyxml2.cpp:2217-2228 | the search removes the node and puts the last one in its place |
| `XmlDocument.XMLDocument.Clear` | face-utils/src/tinyxml2.cpp:2230-2261 | no node, error, depth or buffer is left |
| `XmlDocument.ScanTag` | face-utils/src/tinyxml2.cpp:1965-2022 | the attributes are those of the specification, and only names already read are terminated |
| `XmlDocument.FindAttribute` | face-utils/src/tinyxml2.cpp:1622-1630 | found exactly when an attribute of that name is linked |
| `DynArray.SwapRemovedKeeps` | face-utils/include/tinyxml2.h:274-279 | SwapRemove takes out one occurrence and keeps all others |
| `XmlDocument.ScanKind` | face-utils/src/tinyxml2.cpp:698-775 | the byte comparisons identify what the specification says |
| `XmlDocument.ScanLeaf` | face-utils/src/tinyxml2.cpp:1239-1263 | text, CDATA, comments, declarations and unknowns end where the specification says |
| `XmlDocument.ScanAttr` | face-utils/src/tinyxml2.cpp:1448-1473 | one attribute as specified, error cases included |
| `XmlDocument.ScanText` | face-utils/src/tinyxml2.cpp:200-222 | ParseText finds the first occurrence of the terminator |
| `XmlDocument.ScanName` | face-utils/src/tinyxml2.cpp:225-242 | ParseName finds the end of the name |
| `XmlDocument.SameString` | face-utils/include/tinyxml2.h:591-598 | two C strings in the buffer are compared up to their NULs |
| `XmlDocument.ReadStrings` | face-utils/src/tinyxml2.cpp:274-372 | after a successful parse the strings can be read in any order, with repeats; each reading has the value of its own slice of the original text |
| `StrPairs.ReadInOrder` | face-utils/src/tinyxml2.cpp:274-372 | the value of each lazy string does not depend on the order of the readings |
| `StrPairs.StrPair.GetStr` | face-utils/src/tinyxml2.cpp:274-372 | in place, within its own closed range, the string becomes its specified value, once |
| `StrPairs.DecodeInPlace` | face-utils/src/tinyxml2.cpp:285-364 | the write index never passes the read index; the buffer then holds the specified decoding |
| `StrPairs.ReadPiece` | face-utils/src/tinyxml2.cpp:292-361 | one round reads what the specification says |
| `StrPairs.CollapseWhitespace` | face-utils/src/tinyxml2.cpp:245-271 | trims and squeezes in place, moving the start |
| `StrPairs.FindEntity` | face-utils/src/tinyxml2.cpp:333-347 | the first entity of the table that is spelled out |
| `Decode.CleanIff` | face-utils/src/tinyxml2.cpp:348-352 | decoding in place equals the clean decoding exactly when every unknown ampersand meets an ampersand under the write index |
| `Decode.KnownIsFaithful` | face-utils/src/tinyxml2.cpp:274-372 | so it does when every ampersand starts a predefined entity or a numeric reference |
| `Decode.UnshrunkIsVerbatim` | face-utils/src/tinyxml2.cpp:348-352 | up to the first piece that writes fewer bytes than it reads everything is copied as it stands, unknown ampersands included; a lone CR becomes LF |
| `Decode.StaleByte` | face-utils/src/tinyxml2.cpp:348-352 | an input on which an unknown ampersand is replaced by a stale byte |
| `Decode.HashAtEnd` | face-utils/src/tinyxml2.cpp:463-552 | `&#` as the last two bytes of a string loses its ampersand, and no other text is read without a byte being written or stepped over |
| `Decode.CollapsedValue` | face-utils/src/tinyxml2.cpp:245-271 | with collapsing on and no NUL decoded, the value is the words joined by single spaces |
| `Decode.SqueezeIsJoin` | face-utils/src/tinyxml2.cpp:253-269 | the byte loop of CollapseWhitespace joins words |
| `Decode.NameIsVerbatim` | face-utils/src/tinyxml2.cpp:274-372 | without flags a string is returned as it stands |
| `CharRef.DigitReference` | face-utils/src/tinyxml2.cpp:463-552 | digits of any number: accepted with their value up to 0x10FFFF; above, accepted exactly for a lone 1 in a saturated place, as 0x10FFFF; the bytes written decode to the code point and are fewer than those of the reference |
| `CharRef.AcceptedIff` | face-utils/src/tinyxml2.cpp:463-552 | any text: accepted exactly when the bytes between the semicolon and the nearest terminator before it are digits of a code point, or a lone 1 in a saturated place; value and length of what is written |
| `CharRef.JunkIsSkipped` | face-utils/src/tinyxml2.cpp:503-540 | an input in which text between two hash signs is skipped |
| `CharRef.GetCharacterRef` | face-utils/src/tinyxml2.cpp:463-552 | the pointer code computes the specified result, rejections included |
| `CharRef.SumDigits` | face-utils/src/tinyxml2.cpp:503-540 | the backward digit loop sums without leaving uint32, and rejects exactly the sums out of range |
| `CharRef.SumInRange` | face-utils/src/tinyxml2.cpp:503-540 | a sum in range is the positional value, or that of a lone 1 in a saturated place |
| `CharRef.InRangeIsExact` | face-utils/src/tinyxml2.cpp:503-540 | saturation does not touch values in range |
| `CharRef.LoneOneSum` | face-utils/src/tinyxml2.cpp:532-535 | the exception really occurs, in every saturated place |
| `CharRef.PlaceIsPower` | face-utils/src/tinyxml2.cpp:532-535 | the saturating multiplier is the power of the radix up to hex place 5 and decimal place 6 |
| `CharRef.Utf8RoundTrip` | face-utils/src/tinyxml2.cpp:410-460 | the bytes written decode to the code point by the bit layout of section 3 of RFC 3629 |
| `Scheduler.MutualExclusion` | face-utils/src/TaskScheduler.cpp:26-67 | in every reachable state, for any number of workers and both policies: a body runs on one worker at most, Running means exactly one worker, Scheduled and Completed none |
| `Scheduler.TerminalIsFinal` | face-utils/src/TaskScheduler.cpp:26-67 | Completed and Cancelled are never left, and no body is entered after them |
| `Scheduler.CancelledNeverStarts` | face-utils/src/TaskScheduler.cpp:26-39 | once either compare-exchange of Cancel succeeds every later invocation is dropped |
| `Scheduler.OneShotCancel` | face-utils/src/TaskScheduler.cpp:203-211 | a one-shot body is entered once at most, and its status is terminal when Cancel returns |
| `Scheduler.LostCancel` | face-utils/src/TaskScheduler.cpp:26-39 | Cancel leaves a task alive exactly when a ResetToScheduled lies between its two compare-exchanges and the task has stayed Scheduled since |
| `Scheduler.CancelCanBeLost` | face-utils/src/TaskScheduler.cpp:26-67 | a run in which a repeating task survives Cancel, contrary to the documented effect |
| `Scheduler.NoDrift` | face-utils/src/TaskScheduler.cpp:159-213 | with the lock free a live repeating task has exactly one heap item, at t0 + k * period; its pops are that progression without gap or repeat, each dispatched or skipped, none early |
| `Scheduler.NothingLost` | face-utils/src/TaskScheduler.cpp:180-211 | every dispatched invocation was entered, was dropped because the task was not Scheduled, or is still on its way |
| `Scheduler.DroppedIff` | face-utils/src/TaskScheduler.cpp:192-201 | in every run a worker drops the invocation it has taken exactly when the task is over or another worker is active for it; otherwise it enters the body |
| `Scheduler.SkippedIff` | face-utils/src/TaskScheduler.cpp:169-211 | in every run an item that is not cancelled is skipped exactly when its task repeats with the Skip policy and a worker is active for it; otherwise one invocation is handed over, one-shot tasks included; repeating tasks come back one period later, and nothing else changes |
| `Scheduler.DiscardedIff` | face-utils/src/TaskScheduler.cpp:165-167 | a popped item is discarded exactly when a call of Cancel for its task has succeeded |
| `Scheduler.CancelledIff` | face-utils/src/TaskScheduler.cpp:26-39 | in every reachable state a task is Cancelled exactly when a compare-exchange of a call of Cancel has succeeded, and of one call only |
| `Scheduler.FinishedIff` | face-utils/src/TaskScheduler.cpp:52-67 | after a body a repeating task is Scheduled again and a one-shot task Completed, unless it was cancelled meanwhile |
| `Scheduler.TakenInOrder` | face-utils/src/TaskScheduler.cpp:192-211 | the workers take the invocations in the order in which the timer decided to hand them over |
| `Scheduler.NoneLeft` | face-utils/src/TaskScheduler.cpp:158-213 | a drain ends with nothing in the heap that was due when the timer woke up |
| `Scheduler.QueueDrops` | face-utils/src/TaskScheduler.cpp:183-201 | a run under the Queue policy that dispatches two invocations and enters the body once |
| `Scheduler.ExclusiveStep` | face-utils/src/TaskScheduler.cpp:45-67 | every step keeps mutual exclusion |
| `Scheduler.CadenceStep` | face-utils/src/TaskScheduler.cpp:117-213 | every step keeps the cadence |
| `Shutdown.TimerReturns` | face-utils/src/TaskScheduler.cpp:235-245 | in every run, once the timer has been asked to stop and nobody schedules any more, its own steps are bounded whatever workers and cancellers do, and until it has ended it can make one |
| `Shutdown.TimerGoesOn` | face-utils/src/TaskScheduler.cpp:136-157 | in every run the timer can make a step exactly as long as it is draining, has an item or was asked to stop; it ends only when asked to |
| `Shutdown.TimerStep` | face-utils/src/TaskScheduler.cpp:136-213 | every step of a stopping timer lowers the bound |
| `Scheduler.OnlyResetReschedules` | face-utils/src/TaskScheduler.cpp:62-67 | only ResetToScheduled makes a running task Scheduled |
| `TimerHeap.Heap.Drain` | face-utils/src/TaskScheduler.cpp:160-213 | the drain terminates if every due repeating item of a task not known to be cancelled has a positive period; it makes rounds of the loop, pops at most the due work, exactly that if what the loads see agrees with what is known, in order of time; what is handed on and put back is exactly specified |
| `TimerHeap.NeverDrained` | face-utils/src/TaskScheduler.cpp:160-213 | a due item with a period of zero or less, whose own task is never seen to be cancelled, keeps something due for any number of rounds |
| `TimerHeap.DrainEndsIff` | face-utils/src/TaskScheduler.cpp:160-213 | for every heap, order of ties and course of the status loads: the number of rounds is bounded exactly when every such item's task is cancelled sooner or later |
| `TimerHeap.CancelledElsewhere` | face-utils/src/TaskScheduler.cpp:160-213 | an endless drain although another task is cancelled |
| `TimerHeap.Heap.Push` | face-utils/src/TaskScheduler.cpp:117-123 | heap order is kept and one item is added |
| `TimerHeap.Heap.Pop` | face-utils/src/TaskScheduler.cpp:125-133 | an earliest item leaves, heap order is kept |
| `TimerHeap.Heap.Handle` | face-utils/src/TaskScheduler.cpp:165-211 | cancelled items vanish, repeating ones come back one period later, skipped ones are not dispatched |
| `DrainAgrees.RoundAgrees` | face-utils/src/TaskScheduler.cpp:160-213 | in every run, what the timer does from one pop to going on with the drain is one round of the loop over the array heap: same item, same recurrence, same decision, where the first load sees a successful Cancel and the second an active worker |
| `TimerHeap.FrontIsEarliest` | face-utils/src/TaskScheduler.cpp:89-92 | heap order puts an earliest item in front |
| `TimerHeap.SiftUp` | face-utils/src/TaskScheduler.cpp:117-123 | one round of push_heap |
| `TimerHeap.SiftDown` | face-utils/src/TaskScheduler.cpp:125-133 | one round of pop_heap |
| `TimerHeap.DueNext` | face-utils/src/TaskScheduler.cpp:176-178 | an item put back one period later is due one time less |
| `TimerHeap.WorkOfSame` | face-utils/src/TaskScheduler.cpp:160-213 | the due work does not depend on the arrangement of the heap |
| `TaskRunner.FirstInFirstOut` | face-utils/src/TaskRunner.cpp:31-64 | in every reachable state the submitted tasks are those started, in this order, and those queued; each is queued, running or done |
| `TaskRunner.WakeupDue` | face-utils/src/TaskRunner.cpp:31-53 | tasks queued or stopping with all live workers asleep means a notification is still to come |
| `TaskRunner.AllDone` | face-utils/src/TaskRunner.cpp:16-29 | when all workers have exited nothing is queued and all that was submitted is done, tasks submitted during shutdown included |
| `TaskRunner.DestructorReturns` | face-utils/src/TaskRunner.cpp:16-29 | after stop every order of the runner's own steps ends, within a bound, with all workers exited and all tasks done |
| `TaskRunner.NeverStuck` | face-utils/src/TaskRunner.cpp:40-64 | a stopping runner with a live worker can always make a step |
| `TaskRunner.NoLostWakeupStep` | face-utils/src/TaskRunner.cpp:47-56 | every step keeps the wakeup invariant |
| `MemPools.MemPool.Alloc` | face-utils/include/tinyxml2.h:367-391 | never hands out a live item; takes a new block only when nothing is free; the counts add up |
| `MemPools.MemPool.Free` | face-utils/include/tinyxml2.h:393-404 | the item becomes the head of the free list |
| `MemPools.MemPool.Clear` | face-utils/include/tinyxml2.h:347-358 | nothing is live or free afterwards |
| `MemPools.NewBlock` | face-utils/include/tinyxml2.h:373-379 | a new block is one chain of distinct items |
| `Dom.XMLDocument.InsertEndChild` | face-utils/src/tinyxml2.cpp:931-958 | also for moves: the lists lose the node wherever it was and this one gains it at the end; all trees stay well linked |
| `Dom.XMLDocument.InsertFirstChild` | face-utils/src/tinyxml2.cpp:961-989 | the same at the front |
| `Dom.XMLDocument.InsertAfterChild` | face-utils/src/tinyxml2.cpp:992-1025 | the same behind a given child; null for a stranger, nothing for the node itself |
| `Dom.XMLDocument.AfterChildCorner` | face-utils/src/tinyxml2.cpp:1014-1022 | in the excluded case the next link of the given child is null when it is followed |
| `Dom.XMLDocument.Unlink` | face-utils/src/tinyxml2.cpp:894-915 | the child leaves the list and ends up without links |
| `Dom.XMLDocument.InsertChildPreamble` | face-utils/src/tinyxml2.cpp:1209-1221 | the node leaves its parent or the unlinked list |
| `Dom.XMLDocument.Destroy` | face-utils/src/tinyxml2.cpp:807-823 | the node and exactly the nodes below it go, each freed once; all others are untouched |
| `Dom.XMLDocument.DeleteChild` | face-utils/src/tinyxml2.cpp:918-928 | the same for a child, which leaves its list |
| `Dom.XMLDocument.DeleteUnlinked` | face-utils/src/tinyxml2.cpp:1194-1207 | the same for a node that never had a parent |
| `Dom.XMLDocument.DeleteChildren` | face-utils/src/tinyxml2.cpp:884-891 | all children go, no other list changes |
| `Dom.XMLDocument.Clear` | face-utils/src/tinyxml2.cpp:2230-2235 | every node but the document goes, once |
| `Dom.XMLDocument.MarkInUse` | face-utils/src/tinyxml2.cpp:2217-2228 | exactly that node leaves the unlinked list |
| `Dom.XMLDocument.CreateUnlinkedNode` | face-utils/include/tinyxml2.h:1983-1994 | a new node is unlinked and in no tree |
| `Dom.XMLDocument.SubtreeOf` | face-utils/src/tinyxml2.cpp:931-937 | every node has a subtree: closed below, and each of its other nodes has its parent in it |
| `Dom.XMLDocument.SubtreeIs` | face-utils/src/tinyxml2.cpp:931-937 | the subtree of a node is exactly the nodes from which following parents leads to it |
| `Dom.XMLDocument.NobodyLeft` | face-utils/src/tinyxml2.cpp:2230-2235 | without unlinked nodes and children of the document there are no other nodes |
| `Dom.SplicedIsLinked` | face-utils/src/tinyxml2.cpp:894-915 | the links left by Unlink are those of the list without the child |
| `FaceTypes.GrowthIff` | face-core/include/FACE/String.hpp:242-246 | doubling grows a full buffer exactly below capacity 2^31 |
| `FaceString.String.AppendChar` | face-core/include/FACE/String.hpp:237-252 | one more character or none, with the specified code; length <= capacity <= bound and the NUL are kept |
| `FaceString.String.Append` | face-core/include/FACE/String.hpp:223-231 | as long as memory lasts, the longest prefix that fits the bound; a prefix always; for every target that needs no wrapping growth |
| `FaceString.String.AppendSelf` | face-core/include/FACE/String.hpp:223-252 | without growth a string appended to itself is repeated until it is full, and the call fails |
| `FaceString.AppendMany` | face-core/include/FACE/String.hpp:237-252 | any number of appends to a fresh managed string, bounded or not and with allocations that may fail, copy fewer than twice as many characters as the string holds; all that fits is appended if memory lasts |
| `FaceString.String.Allocate` | face-core/include/FACE/String.hpp:310-324 | on failure nothing changes; otherwise the content is kept if asked for, and the old buffer is freed if there was one |
| `FaceString.String.Reserve` | face-core/include/FACE/String.hpp:195-201 | more room, same content, for unbounded managed strings only |
| `FaceString.String.Assign` | face-core/include/FACE/String.hpp:130-148 | a deep copy with the bound of the source; only own memory is freed; assigning a string to itself changes nothing |
| `FaceString.String.Copy` | face-core/include/FACE/String.hpp:114-124 | a deep copy in memory of its own |
| `FaceString.String.FromCString` | face-core/include/FACE/String.hpp:155-168 | a managed copy whose bound is its length |
| `FaceString.String.WrapCString` | face-core/include/FACE/String.hpp:105-109 | an unmanaged string over the caller's C string |
| `FaceString.String.Wrap` | face-core/include/FACE/String.hpp:176-187 | an unmanaged string, or the invalid state on a violated precondition |
| `FaceString.String.NewBounded` | face-core/include/FACE/String.hpp:80-91 | a bounded empty string, or the invalid state |
| `FaceString.String.Clear` | face-core/include/FACE/String.hpp:214-218 | no content, same capacity |
| `FaceString.String.At` | face-core/include/FACE/String.hpp:260-265 | out of range there is a NUL |
| `FaceSequence.Sequence.AppendElem` | face-core/include/FACE/Sequence.hpp:233-247 | one more element or none, with the specified code |
| `FaceSequence.Sequence.Append` | face-core/include/FACE/Sequence.hpp:219-226 | as long as memory lasts, the longest prefix that fits the bound; for every target that needs no wrapping growth |
| `FaceSequence.Sequence.AppendSelf` | face-core/include/FACE/Sequence.hpp:219-247 | the same for a sequence |
| `FaceSequence.AppendMany` | face-core/include/FACE/Sequence.hpp:233-247 | any number of appends to a fresh managed sequence, bounded or not and with allocations that may fail, copy fewer than twice as many elements as the sequence holds; all that fits is appended if memory lasts |
| `FaceSequence.Sequence.Reserve` | face-core/include/FACE/Sequence.hpp:189-204 | more room, same content, within the bound |
| `FaceSequence.Sequence.Assign` | face-core/include/FACE/Sequence.hpp:152-174 | the target owns its buffer afterwards exactly when it did not wrap a foreign one or the source had elements to copy; assigning a sequence to itself changes nothing |
| `FaceSequence.AdoptForeign` | face-core/include/FACE/Sequence.hpp:152-174 | a sequence that wraps a caller's buffer manages it after the assignment of an empty sequence |
| `FaceSequence.Sequence.Copy` | face-core/include/FACE/Sequence.hpp:88-102 | a deep copy in memory of its own |
| `FaceSequence.Sequence.FromArray` | face-core/include/FACE/Sequence.hpp:113-128 | a managed copy whose bound is its length |
| `FaceSequence.Sequence.Wrap` | face-core/include/FACE/Sequence.hpp:138-146 | an unmanaged sequence, or the invalid state; a length above the bound is taken as it is |
| `Connections.WholeLife` | face-utils/include/SubscriberConnection.h:50-138 | for every nested run and the destructor after it, Register_Callback and Unregister_Callback strictly alternate and end unregistered; every message sent is a response of the run under the transaction its handler was called for |
| `Connections.Connection.Perform` | face-utils/include/ResponderConnection.h:122-195 | counter, map and flags refine a list of registrations: any reaction, however nested, leaves the registrations and the calls on the transport that the list model says |
| `Connections.AnswersOfReaction` | face-utils/include/ResponderConnection.h:190-224 | whatever a reaction does, each message it sends is the response of a handler, under the transaction of the innermost request that handler was called for |
| `Connections.Connection.CallbackHandler` | face-utils/include/SubscriberConnection.h:124-138 | the handlers that run are those registered at the start whose predicate lets the message through, once each, in registration order, whatever the handlers do; each does its reaction, with a sender for the transaction of this dispatch |
| `Connections.WhoRuns` | face-utils/include/EventDispatcher.h:100-111 | no registered callback that lets the message through is missing, none is doubled, and they come by id |
| `Connections.Connection.RegisterHandler` | face-utils/include/SubscriberConnection.h:71-121 | handler count, dispatcher entries and uncancelled handles stay equal; the new registration comes last, and the transport is told with the first one |
| `Connections.Connection.CancelHandle` | face-utils/include/SubscriberConnection.h:107-117 | cancelling works once, for ever; the transport is told with the last one |
| `Connections.Connection.SendResponse` | face-utils/include/ResponderConnection.h:201-224 | a response is sent under the transaction of the request its sender was made for, and changes nothing else |
| `Connections.Connection.Destroy` | face-utils/include/ResponderConnection.h:101-106 | unregisters exactly when handlers are left |
| `Connections.EventDispatcher.Register` | face-utils/include/EventDispatcher.h:84-89 | a new callback comes last |
| `Connections.EventDispatcher.Snapshot` | face-utils/include/EventDispatcher.h:104-107 | the snapshot is all live callbacks by id |
| `Connections.OrderedHas` | face-utils/include/EventDispatcher.h:100-111 | no live callback is missing from a snapshot |
| `Requester.Connection.Perform` | face-utils/include/RequesterConnection.h:63-123 | over all nested runs everything that can happen happens, in order, and the incomplete entries of the map are exactly the requests the transport has accepted and no handler has answered |
| `Requester.Connection.SendRequest` | face-utils/include/RequesterConnection.h:63-85 | also with responses inside the transport's call: the new adapter is accepted with this transaction exactly when the transport accepted it under an unused id, and is then in the map under that id; otherwise nobody holds it; no running adapter loses its last owner |
| `Requester.Connection.Returns` | face-utils/include/RequesterConnection.h:76-85 | what follows the transport's call stores an accepted request and drops a refused one |
| `Requester.Connection.CallbackHandler` | face-utils/include/RequesterConnection.h:94-109 | a response runs its handler, with all that does, and completes its adapter only afterwards |
| `Requester.Connection.RunHandler` | face-utils/include/RequesterConnection.h:94-109 | the handler does the whole of its reaction; when it returns its adapter is still owned and not complete |
| `Requester.HandledOnce` | face-utils/include/RequesterConnection.h:55-62 | in any run each handler is called once at most, and has been exactly when its request is answered |
| `Requester.Connection.CleanupCompleted` | face-utils/include/RequesterConnection.h:115-123 | removes the complete adapters and no others |
| `Requester.Connection.StoreAnyway` | face-utils/include/RequesterConnection.h:78-82 | under any id at all an unanswered request keeps its adapter exactly when the id is not its own |

## Left out

- Reading and writing files, printf-style formatting, number conversion, error texts and line numbers: library calls.
- Pretty printing, the byte order mark on output, and visitors other than the printer.
- Layout.LaidIsRead: documents with text at either end, and text nodes separated by nothing, which the parser cannot keep apart.
- Faults.FaultIsReported: a text that ends inside a tag before its attributes do, and documents with several faults, of which the first in the text counts.
- XmlDocument.XMLDocument.NodeParseDeep: the parsed nodes are values that hold positions in the buffer, and their identities are numbers; the links between nodes are `Dom.dfy`, the free lists `MemPool.dfy`, separately. The parser counts the nodes alive and does not show them in a pool.
- XmlDocument.XMLDocument.Clear: giving back is a count; a deleted node takes with it as many nodes as are linked below it.
- StrPairs.StrPair.GetStr: strings that own memory or point to interned text are not modelled, nor is TransferTo; after a parse all strings start unread, although names were terminated before, which writes the same NUL again.
- XmlPrinter.XMLPrinter.Visit: documents that leave entities alone, which are printed raw, output to a file, and the fields that only steer pretty printing.
- XmlPrinter.XMLPrinter.VisitAll: the same.
- Reparse.ParsePrintParse: the raw print of a document that leaves entities alone; with it `<a b='x"y'/>` would not survive.
- CharRef.GetCharacterRef: the bit operations of the UTF-8 encoder are sums of disjoint bit fields.
- MemPools.MemPool.Alloc: the counters that are only printed or checked in debug builds.
- Dom: values, attributes, documents other than the node's own, and the checks that only assert.
- Memory ordering weaker than sequential consistency, exceptions thrown by tasks, overflow of time points, and the real clock, which is a number that never decreases.
- TaskRunner.DestructorReturns: that threads get to run at all is up to the operating system; what is proved is that no order of their steps is stuck or endless.
- The transition system of the scheduler pops any earliest item, and which of several equal ones the array heap pops is not carried over to it.
- Calling Cancel of a handler handle after its connection is gone, or of a registration after its dispatcher; thread safety of the connections, which the source does not offer.
- FaceString.String.Append: appending from an invalid string whose length field is not zero, and lengths that UnsignedLong cannot hold; a string appended to itself is `AppendSelf`.
- FaceSequence.Sequence.Append: the same; a sequence appended to itself is `AppendSelf`.
- FaceString.String.Reserve: a request for 2^32 - 1 characters from an unbounded managed string, whose NUL makes the allocation size wrap to zero.
- FaceSequence.Sequence.Wrap: after a length above the bound no further operation is specified.
- UopBase, FaceInjectable, ConnectionResolver, PublisherConnection, IDGenerator, ReadWriteLocked and the FACE interface headers: lookups, a counter, a lock wrapper and declarations.
