# Verified model of a small search engine and its XML library

The repository holds a C++ search engine (a reactor with a thread pool, an inverted index with cosine ranking, a key
recommender, an LRU cache) and a copy of the tinyxml2 library. This project models the stateful parts of both in Dafny
and proves what they promise. Each module follows one component.

| files | component | main results |
|---|---|---|
| `TaskQueue` | `TaskQueue` and `ThreadPool`, as a transition system over any number of producers and workers | `NoLostWakeup`, `NoDeadlock`, `ExactlyOnceInOrder`, `CleanShutdown`, `BroadcastReachesAll` |
| `Calls` | what the calls of AddTask hand in, against what the queue does with it | `EachCallOnce` |
| `Shutdown` | `ThreadPool::Stop` over the same system: which tasks it loses, and when it returns | `LostTasks`, `StopIsSafeIff`, `LateCallCanBeLost`, `StopReturns`, `StopHangs` |
| `Hang` | when `Stop` can hang | `StopMayHangIff` |
| `EventLoop` | callbacks posted to the event loop through an eventfd | `NeverStranded`, `AllCallbacksRun` |
| `XmlText`, `CharRef`, `Decoding`, `StrPair` | lazy decoding in place | `UcsIsPositional`, `Utf8RoundTrip`, `DecodeInPlace`, `FlushIsDecoded`, `ReadAll` |
| `Notation` | character references, against numbers written by rows of digits | `WrittenIsPositional`, `ReferenceRoundTrip`, `ReferenceIff` |
| `XmlTree`, `XmlParser`, `XmlRoundTrip`, `XmlNormal`, `XmlBalance`, `XmlSegments`, `XmlPrinter`, `XmlDocument`, `XmlReading` | the XML parser on its mutable buffer and the printer | `RoundTrip`, `SurvivesIffStable`, `Reprinted`, `OneRoundIsEnough`, `PrintAndParse`, `SucceedsIffBalanced`, `SegmentsApart`, `ParseAndRead` |
| `Spelling` | which texts are attributes and tags, and what they are read as | `ListIsRead`, `ListIsWritten`, `TagIsRead`, `TagIsWritten`, `ElementIsRead` |
| `XmlErrors` | which error a parse ends with | `UnclosedMarkup`, `EndTagDecides`, `TooDeep` |
| `Dom` | the doubly linked document tree and the list of unlinked nodes | the insertions and deletions as edits of child sequences, `SpelledBothWays`, `MovableIff`, `Clear` |
| `DomBuild` | the parser building that tree | `ParseDom` |
| `MemPool` | the free-list allocator | `Alloc`, `Free` |
| `LruCache` | the result cache | `AddRecord` against the whole history of calls |
| `Letters`, `EditDistance`, `LetterIndex` | the key recommender | `MinimumEditDist`, `Triangle`, `FewestEdits`, `NoFewerEdits`, `EndsInADistance`, `AskBuilt` |
| `Utf8Keys` | the key recommender asked in ASCII or Chinese | `PiecesOfText`, `AskText`, `SharedCharacters` |
| `Sums`, `TfIdf`, `Tally`, `InvertedIndex`, `PageQuery` | page preprocessing, the inverted index and ranking | `GetRelativePages`, `CosineRange`, `DoQuery`, `AllFoundIffNoTies` |
| `Rarity` | what the weights and the ranking mean | `RarerWeighsMore`, `InProportion`, `FirstIff`, `AlikeTie`, `RareWordDecides` |

How to read it. Code that works step by step is a class or method with its loops, proved against a specification
function or predicate; the laws are lemmas about those. The concurrent parts are state machines whose runs are sequences
of steps, and results about them hold for every run. Ghost values stand beside mutable objects: the history of an
`LruCache`, the child sequences of a DOM, the text that a parse buffer first held.

Conventions. Strings are sequences of `char`, each standing for one byte; reading past the end of a text gives NUL.
Iterators of the cache's list are node identities. The document, which in tinyxml2 is itself a node, has a node called
`root` in `Dom`. The XML parser runs with the library's default settings (entities processed, white space kept).
Arithmetic on `double` is exact, with a NaN; square root and logarithm are parameters: the first is only assumed to
be a square root, the second nothing, but in `Rarity` to increase and to be 0 at 1, or 1 at 2 and 2 at 4. `size_t`, `int`, `unsigned` and `unsigned long` are modelled with their width where it matters:
the accumulation of character references wraps at 2^32 and 2^64, and a negative cache size becomes a huge one.

## Where the code departs from its intent

- `TaskQueue` never initialises `_flag`; it starts true here.
- `TaskQueue::Wakeup` takes no mutex. The model keeps that: it can run between a worker's test and its `Wait`. When it
  does not, `Stop` returns, whatever calls of AddTask are under way (`StopReturns`); when it does, `Stop` hangs
  (`MissedWorkerHangsStop`, with a run in `StopHangs`). Whether it can, when `Stop` is called now and no new calls come,
  is decided exactly by whether some thread does not rest yet (`StopMayHangIff`).
- `Stop` can lose tasks. Those left in the queue when it returns are exactly the ones queued when the flag fell and the
  ones accepted afterwards (`LostTasks`), and no worker ever runs them (`LostForGood`). When `Stop` is called, some
  continuation without new calls loses a task if and only if an AddTask is under way that has not appended its task,
  other than one that holds the mutex and has both room and tasks in front of its own (`StopIsSafeIff`). The task
  of a call that begins later can always be lost: it is left in the queue, or the call is still before its push
  (`LateCallCanBeLost`). `LateTaskIsLost` is a run.
- An unknown named entity makes `GetStr` advance both cursors without copying, so that a stale byte can stay in the text
  (`StaleByte`); decoding is as meant exactly when the byte there is an ampersand (`FlushIsDecoded`).
- Character references that overflow are accepted: `&#x100000041;` becomes the letter A (`OverflowingReference`).
- Digits behind a second marker character count alone: `&#1#65;` becomes the letter A too (`SecondMarker`). Which
  references are accepted, and as what, is `ReferenceIff`.
- A CR in a value is printed as it is and read back as LF (`CarriageReturnIsLost`), and LF CR is folded to one LF, which
  section 2.11 of XML 1.0 does not ask for. A value comes back exactly when it holds neither NUL nor CR
  (`EscapeRoundTrip`).
- A text of white space is printed as it is and dropped by a parse; a text at the end of a document makes the parse
  fail; and one at its start loses leading white space and a byte order mark, unless the document was read with such a
  mark, which Print writes again. The documents that print and parse leave as they were are exactly the `Stable` ones
  (`SurvivesIffStable`).
- An end tag at document level when no element is open stops the parse without an error, and a tag that is both an end
  tag and self-closed counts as an empty element; the model does the same, and `SucceedsIffBalanced` says so.
- A comment in `ParseAttributes` says that a repeated attribute name is not detected; the code does detect it, and so
  does the model.
- `InsertAfterChild` dereferences null when the node to insert is already the last child, directly after the anchor; the
  model reports it as `crashed`, with an if-and-only-if, and `InsertWhereItIs` is a call that does it.
- The insertions accept a node that is above its new parent, or is that parent. The links are then a cycle, in that case
  and no other (`MovableIff`); `InsertedIntoItself` is the simplest one.
- An `LruCache` of size 0 takes the last entry of an empty list on every call; the model reports it as `crashed`.
- `MinimumEditDist` fills its borders one entry short and starts its inner loop at column 0. The loops as written are
  `MinimumEditDistAsWritten`, which ends in a distance if and only if one word has no whole letter, so that the loops are
  not entered (`EndsInADistance`). Otherwise the first turn reads the entry in front of a row, which is undefined, and
  if the memory there holds some number it goes on to take a substring out of range (`LoopsEnd`, `FailsOnEqualWords`).
  `MinimumEditDist` in the model has the borders filled to their ends and starts at column 1.
- Pages with the same cosine as another are dropped from an answer: `GetPagesOrder` keys a map by the cosine. All pages
  that answer are found if and only if no two have the same cosine (`AllFoundIffNoTies`). All have the same one for a
  question of one word, and when all its words occur in so many pages that their IDF is zero and the cosines are NaN; so
  such a question finds one page, however many answer (`OneIsFound`, `OneOfTwoIsDropped`). So do pages that have the
  question's words in the same proportions, whatever else they say (`AlikeTie`, `OneOfAlike`).

## Model

| member | source | states |
|---|---|---|
| `TaskQueue.StepKeepsInv` | src/reactor/task_queue.cc:19-49 | every step keeps mutual exclusion, the queue bound, the conservation of tasks, the wake-up counts and the shutdown facts |
| `TaskQueue.NoLostWakeup` | src/reactor/task_queue.cc:19-44 | while the flag is up and the mutex free, a worker sleeps only if every queued task has a notified worker on its way; dually for producers and free slots |
| `TaskQueue.NoDeadlock` | src/reactor/task_queue.cc:19-44 | with capacity and a worker, until Stop has seen the queue empty, some thread can act unless no task is queued and no call is under way |
| `TaskQueue.ExactlyOnceInOrder` | src/reactor/task_queue.cc:19-44 | accepted tasks are the dispatched ones followed by the queue, which never exceeds its capacity; each accepted task is finished, in one worker's hands or queued, as often as it was accepted |
| `TaskQueue.PopFindsATask` | src/reactor/task_queue.cc:32-43 | past its wait loop Pop finds a task at the front, or the flag is down and it returns nullptr |
| `TaskQueue.CleanShutdown` | src/reactor/thread_pool.cc:42-51 | when Stop has returned all workers have exited and no task is lost: each is finished or queued; all are finished if no AddTask overlapped Stop |
| `TaskQueue.BroadcastReachesAll` | src/reactor/task_queue.cc:46-49 | if Wakeup does not fall between a worker's test and its Wait, no worker sleeps afterwards |
| `TaskQueue.MissedWorkerHangsStop` | src/reactor/thread_pool.cc:42-51 | if it does, Stop does not return in any continuation without a spurious wake-up or a new task |
| `TaskQueue.ShutdownProgress` | src/reactor/thread_pool.cc:53-60 | after a Wakeup that reached all, every worker action shortens the way to exit, and until all have exited some thread can act, a worker if nobody is inside AddTask |
| `Shutdown.NoPopAfterFlag` | src/reactor/task_queue.cc:32-49 | once the flag is down no continuation dispatches a task, and the queue only grows |
| `Shutdown.LostTasks` | src/reactor/thread_pool.cc:42-51 | in every run that ends with Stop returned, the tasks left are those queued when the flag fell followed by those accepted since; every other accepted task is finished |
| `Shutdown.LostForGood` | src/reactor/thread_pool.cc:42-60 | nothing that happens after Stop has returned finishes a task or takes one from the queue |
| `Shutdown.StopIsSafeIff` | src/reactor/thread_pool.cc:42-51 | in any reachable state in which Stop may be called, no continuation without new calls loses a task if and only if no call of AddTask is at risk |
| `Shutdown.LateCallCanBeLost` | src/reactor/thread_pool.cc:42-51 | a call that begins at any time after Stop was called has a continuation in which Stop has returned and the call's own task is left in the queue or still to be pushed, and after which no task is ever finished |
| `Shutdown.LateTaskIsLost` | src/reactor/thread_pool.cc:42-51 | a run in which AddTask begins between Stop's look at the queue and its return, and whose task no continuation finishes |
| `Shutdown.StopReturns` | src/reactor/thread_pool.cc:42-60 | after a Wakeup that reached all, whatever calls are under way, the threads take a bounded number of steps without new calls, and one of them can take one until Stop has returned |
| `Shutdown.StopHangs` | src/reactor/thread_pool.cc:42-51 | a reachable state from which Stop returns in no continuation without a new task or a spurious wake-up |
| `Hang.StopMayHangIff` | src/reactor/thread_pool.cc:42-60 | in any reachable state in which Stop may be called: some continuation without new calls and spurious wake-ups leads to where Stop never returns, if and only if a task is queued, a call is under way or a worker is awake |
| `Hang.ComeToRest` | src/reactor/task_queue.cc:19-44 | left alone, the threads come to where all is done and a worker is between its test of the empty queue and its Wait, unless all rest already |
| `Hang.CannotHang` | src/reactor/thread_pool.cc:42-60 | with all threads at rest, Stop can return from wherever the program goes |
| `Calls.EachCallOnce` | src/reactor/task_queue.cc:19-44 | of the tasks that a run's calls hand in, read off the run, each is as often in a call that has not pushed yet, queued, in a worker's hands or finished as it was handed in |
| `EventLoop.StepKeepsInv` | src/reactor/event_loop.cc:41-76 | every step keeps that a wake-up is owed for pending callbacks and that the loop has something to read when it reads |
| `EventLoop.NeverStranded` | src/reactor/event_loop.cc:41-76 | the callbacks of a run's pushes, read off the run, are those run, in hand and pending, in that order; a pending one has a positive counter, a poster about to write, or the loop about to swap; HandleRead never blocks |
| `EventLoop.StepKeepsOrder` | src/reactor/event_loop.cc:41-76 | a step appends to that order exactly the callback it pushes, if it pushes one |
| `EventLoop.WakesAtStart` | src/reactor/event_loop.cc:187-193 | until its first step the loop has a positive counter to read, whatever is posted |
| `EventLoop.LoopNears` | src/reactor/event_loop.cc:49-76 | every step of the loop brings it closer to blocking with nothing to read |
| `EventLoop.AllCallbacksRun` | src/reactor/event_loop.cc:78-103 | left alone after any run, the loop has run exactly the callbacks of the run's pushes, in their order, before it blocks |
| `LruCache.RecencyMeaning` | src/cache/lru_cache.cc:15-27 | the specification: distinct keys with their last values, by time of last use |
| `LruCache.CachedAfter` | src/cache/lru_cache.cc:15-27 | one more call moves or puts its key in front and drops the last entry only on a miss in a full cache |
| `LruCache.TakeWithoutHit` | src/cache/lru_cache.cc:15-27 | on a hit, dropping the key from the cached entries is what the specification keeps |
| `LruCache.MissesAfter` | src/cache/lru_cache.cc:15-27 | a call is a miss exactly when its key is not among the cached ones |
| `LruCache.LruCache.constructor` | src/cache/lru_cache.cc:5-9 | a cache starts in a state that agrees with the empty history |
| `LruCache.LruCache.AddRecord` | src/cache/lru_cache.cc:15-27 | fails if and only if the size is 0; else, after any history: the list is the first capacity entries by recency, the map is exactly its iterators by key, the pending list is the last capacity misses, newest first |
| `LruCache.LruCache.DeleteRear` | src/cache/lru_cache.cc:29-33 | removes the last entry and its iterator, nothing else |
| `LruCache.LruCache.AddFront` | src/cache/lru_cache.cc:35-38 | puts a new entry in front and keeps map and list linked |
| `LruCache.LruCache.MoveToFront` | src/cache/lru_cache.cc:40-46 | brings the key's entry to the front; the others keep their order |
| `LruCache.LruCache.AddToPending` | src/cache/lru_cache.cc:48-53 | the pending list is the newest entry and the older ones, cut to capacity |
| `LruCache.EraseIsWithout` | src/cache/lru_cache.cc:40-46 | erasing through the mapped iterator removes exactly the entry of that key |
| `MemPool.MemPoolT.Alloc` | src/tinyxml2/tinyxml2.h:375-399 | hands out an item that is not live, the first free one if there is any; free list and live items stay disjoint and as many as the blocks hold; counters |
| `MemPool.MemPoolT.Free` | src/tinyxml2/tinyxml2.h:401-412 | the item becomes the first free one; null is ignored |
| `MemPool.MemPoolT.Use` | src/tinyxml2/tinyxml2.h:375-412 | whatever a caller writes into a live item leaves the free list intact |
| `MemPool.MemPoolT.NewBlock` | src/tinyxml2/tinyxml2.h:376-387 | a block's slots are chained in order and end in null |
| `MemPool.MemPoolT.SlotsIsProduct` | src/tinyxml2/tinyxml2.h:375-412 | live plus free items number blocks times ITEMS_PER_BLOCK |
| `XmlText.FindEnd` | src/tinyxml2/tinyxml2.cpp:215-237 | the scan of ParseText: the first occurrence of the end tag before a NUL |
| `XmlText.FindEndFinds` | src/tinyxml2/tinyxml2.cpp:215-237 | it stops at or before every occurrence that no NUL precedes |
| `XmlText.SkipWhiteSpace` | src/tinyxml2/tinyxml2.h:554-574 | stops at the first character that is no white space |
| `XmlText.NameEnd` | src/tinyxml2/tinyxml2.cpp:240-257 | the end of the run of name characters |
| `CharRef.TailBits` | src/tinyxml2/tinyxml2.cpp:425-475 | the masks and shifts of the code are the quotients and remainders of the model |
| `CharRef.Utf8RoundTrip` | src/tinyxml2/tinyxml2.cpp:425-475 | the bytes decode, by section 3 of RFC 3629, to the value exactly when it is below 0x200000 |
| `CharRef.Utf8Complete` | src/tinyxml2/tinyxml2.cpp:425-475 | every well-formed sequence is the encoding of what it decodes to |
| `CharRef.AccumulateSums` | src/tinyxml2/tinyxml2.cpp:478-571 | the right-to-left loop sums the digits times their wrapped places |
| `CharRef.UcsIsPositional` | src/tinyxml2/tinyxml2.cpp:478-571 | that sum is the positional number if and only if every digit times its place fits 32 bits and the number fits 64 |
| `CharRef.ReferenceDenotes` | src/tinyxml2/tinyxml2.cpp:478-571 | a digit-only decimal or hexadecimal reference becomes the UTF-8 bytes of that number |
| `CharRef.OverflowingReference` | src/tinyxml2/tinyxml2.cpp:478-571 | a reference that does not fit and yields another character |
| `Notation.DigitIsShown` | src/tinyxml2/tinyxml2.cpp:507-524 | the value of a digit is its place in "0123456789", "0123456789ABCDEF" or "0123456789abcdef" |
| `Notation.WrittenIsPositional` | src/tinyxml2/tinyxml2.cpp:478-571 | a run of characters has a positional value exactly when it writes that number, the last digit its remainder and the rest its quotient |
| `Notation.HexIsRead` | src/tinyxml2/tinyxml2.cpp:488-533 | "&#x", any hexadecimal spelling of a number below 2^32 and ";" is read as the UTF-8 bytes of that number |
| `Notation.DecimalIsRead` | src/tinyxml2/tinyxml2.cpp:534-566 | the same for "&#" and decimal digits |
| `Notation.ReferenceRoundTrip` | src/tinyxml2/tinyxml2.cpp:289-381 | GetStr of a reference written by looking digits up in those rows gives the UTF-8 bytes, for every value below 2^32 |
| `Notation.ReferenceIff` | src/tinyxml2/tinyxml2.cpp:478-571 | a reference is accepted if and only if digits stand between some marker character and the first semicolon, and denotes what those digits write |
| `Notation.NoSemicolon` | src/tinyxml2/tinyxml2.cpp:488-533 | without a semicolon it is refused |
| `Notation.SecondMarker` | src/tinyxml2/tinyxml2.cpp:534-566 | a reference with two marker characters, of which the second counts |
| `Decoding.FlushIsDecoded` | src/tinyxml2/tinyxml2.cpp:289-387 | GetStr's result equals the fresh-buffer decoding if and only if no skipped entity leaves a byte other than an ampersand |
| `Decoding.NoSkipIsDecoded` | src/tinyxml2/tinyxml2.cpp:289-387 | in particular for every segment without an unknown entity |
| `Decoding.StaleByte` | src/tinyxml2/tinyxml2.cpp:363-367 | a segment where it does not |
| `StrPair.GetNumeric` | src/tinyxml2/tinyxml2.cpp:478-571 | the loops over the half-overwritten buffer read the same reference as on the untouched segment |
| `StrPair.FindEntity` | src/tinyxml2/tinyxml2.cpp:349-367 | the loop over the entity table finds the first entry that matches up to the semicolon |
| `StrPair.DecodeInPlace` | src/tinyxml2/tinyxml2.cpp:297-378 | the write cursor never passes the read cursor, neither leaves the segment, the segment ends as Flush of its old bytes and a NUL, and nothing else is written |
| `StrPair.StrPair.Set` | src/tinyxml2/tinyxml2.h:155-162 | the pair stands for the bytes now between its bounds, to be decoded when read |
| `StrPair.StrPair.GetStr` | src/tinyxml2/tinyxml2.cpp:289-387 | decodes once; later calls change nothing; only the segment and its terminator are written |
| `StrPair.ReadAll` | src/tinyxml2/tinyxml2.cpp:289-387 | disjoint segments give the text each has by itself, in whatever order and however often they are read |
| `StrPair.OtherStillHolds` | src/tinyxml2/tinyxml2.cpp:289-387 | writes within one segment leave a disjoint one readable |
| `XmlRoundTrip.EscapeFlush` | src/tinyxml2/tinyxml2.cpp:289-387 | wherever the cursors stand, decoding an escaped value in place gives the value with its newlines folded |
| `XmlRoundTrip.EscapeRoundTrip` | src/tinyxml2/tinyxml2.cpp:2639-2691 | for both entity sets, what is read of an escaped value is the value if and only if it has no NUL and no CR |
| `XmlRoundTrip.QuotesEscaped` | src/tinyxml2/tinyxml2.cpp:2639-2691 | an escaped attribute value contains no quote of either kind and no '<' or '>', so that ParseText ends at the closing quote |
| `XmlRoundTrip.MarkupEscaped` | src/tinyxml2/tinyxml2.cpp:2639-2691 | an escaped text contains no '<' and no '>', so that ParseText ends at the next tag and "]]>" is never printed |
| `XmlRoundTrip.FiveEntities` | src/tinyxml2/tinyxml2.cpp:289-381 | each of the five characters is printed as its entity and read back from it |
| `XmlRoundTrip.LinesComeBack` | src/tinyxml2/tinyxml2.cpp:289-381 | lines that are not empty, ended by LF, CR, CR LF or LF CR, are read back each ended by one LF |
| `XmlRoundTrip.VerbatimRoundTrip` | src/tinyxml2/tinyxml2.cpp:2905-2932 | a value written unescaped comes back if and only if it has no NUL and, where newlines are normalised, no CR |
| `XmlRoundTrip.CarriageReturnIsLost` | src/tinyxml2/tinyxml2.cpp:2639-2691 | no value with a CR comes back, and what is read has none |
| `XmlRoundTrip.FindEndExact` | src/tinyxml2/tinyxml2.cpp:215-237 | ParseText ends exactly at the end mark behind a body that lacks it |
| `XmlRoundTrip.AttributesBack` | src/tinyxml2/tinyxml2.cpp:1935-1992 | printed attributes with distinct names are read back in order |
| `XmlRoundTrip.NodeBack` | src/tinyxml2/tinyxml2.cpp:1050-1162 | every valid node but blank text is read back, in normal form, from its printed form, and the cursor is left behind it |
| `XmlRoundTrip.NodesBack` | src/tinyxml2/tinyxml2.cpp:1050-1162 | so are siblings, up to the end tag of their parent, with the blank texts dropped |
| `XmlRoundTrip.RoundTrip` | src/tinyxml2/tinyxml2.cpp:2525-2539 | parsing the compact print of any well-formed document, with or without a byte order mark, gives its normal form without what is skipped at the start, which behind a mark is nothing; it fails exactly if nothing is left or a text is last; well-formed: names, distinct attribute names, no NUL, no adjacent texts, no end mark inside, declarations first, at most 98 open elements |
| `XmlNormal.ParsedIsWellFormed` | src/tinyxml2/tinyxml2.cpp:1050-1162 | every parse that succeeds, of any text, yields a well-formed document |
| `XmlNormal.SurvivesIffStable` | src/tinyxml2/tinyxml2.cpp:2454-2463 | of all trees whatever, with or without a byte order mark, exactly the stable ones come back from print and parse as they were, mark included: well-formed, no CR, no blank text, no text at the end, and without a mark no text at the start that begins with what is skipped there |
| `XmlNormal.Reprinted` | src/tinyxml2/tinyxml2.cpp:2525-2539 | for any text that parses, what parsing the print of its tree gives, the byte order mark it was read with included: the normal form, or an error in exactly two cases |
| `XmlNormal.OneRoundIsEnough` | src/tinyxml2/tinyxml2.cpp:2525-2539 | the document after one round of print and parse stays as it is in a further one, unless it is empty or has no byte order mark and begins with a text whose start is skipped, and then it does not; a mark is kept |
| `XmlBalance.LoopIsScan` | src/tinyxml2/tinyxml2.cpp:1050-1162 | the recursion that hands end tags up accepts what a flat scan with a stack of names accepts |
| `XmlBalance.SucceedsIffBalanced` | src/tinyxml2/tinyxml2.cpp:2051-2076 | a parse succeeds if and only if each end tag names the innermost open element, none is left open, at most 98 are open at once and declarations come first, up to a stray end tag at document level |
| `Spelling.Classes` | src/tinyxml2/tinyxml2.h:573-594 | the character tests, against the characters listed one by one |
| `Spelling.WrittenIsRead` | src/tinyxml2/tinyxml2.cpp:1418-1446 | a name, any white space, '=', any white space, and a value between two equal quotes of either kind that holds neither that quote nor NUL, is read as that name and value |
| `Spelling.ReadIsWritten` | src/tinyxml2/tinyxml2.cpp:1418-1446 | conversely, whatever is read as an attribute is written so |
| `Spelling.ListIsRead` | src/tinyxml2/tinyxml2.cpp:1935-1992 | attributes with different names, each after any white space, are read as written, in order, up to the end of the tag |
| `Spelling.OneWritten` | src/tinyxml2/tinyxml2.cpp:1955-1961 | an attribute whose name is there already makes the tag fail, any other is appended |
| `Spelling.ListIsWritten` | src/tinyxml2/tinyxml2.cpp:1935-1992 | conversely, whatever list is read is written so |
| `Spelling.TagIsRead` | src/tinyxml2/tinyxml2.cpp:2051-2070 | every spelling of a tag is read as its name, attributes and kind |
| `Spelling.TagIsWritten` | src/tinyxml2/tinyxml2.cpp:2051-2070 | conversely, every tag that is read is spelled so |
| `Spelling.PartsMeanThat` | src/tinyxml2/tinyxml2.cpp:1418-1446 | names and decoded values do not depend on the spelling |
| `Spelling.ElementIsRead` | src/tinyxml2/tinyxml2.cpp:2051-2076 | a document of one element closed in its own tag, however it is spelled, is that element |
| `XmlErrors.BlankIsEmpty` | src/tinyxml2/tinyxml2.cpp:2525-2539 | white space, with a byte order mark behind it or without, is an empty document |
| `XmlErrors.UnclosedMarkup` | src/tinyxml2/tinyxml2.cpp:1274-1387 | a comment, CDATA section, declaration or other markup without its end fails with its own error |
| `XmlErrors.TextAtTheEnd` | src/tinyxml2/tinyxml2.cpp:1209-1239 | a text that no '<' follows is an error of the text |
| `XmlErrors.TextBeforeNothing` | src/tinyxml2/tinyxml2.cpp:1224-1232 | one that a '<' follows and then nothing is a parsing error |
| `XmlErrors.EndTagDecides` | src/tinyxml2/tinyxml2.cpp:1117-1157 | an element is accepted with the end tag of its own name and refused as mismatched with that of any other |
| `XmlErrors.Unended` | src/tinyxml2/tinyxml2.cpp:1117-1157 | a start tag that nothing follows is a mismatched element, and one without its '>' an error of the element |
| `XmlErrors.NotATag` | src/tinyxml2/tinyxml2.cpp:2051-2066 | a '<' before a character that begins no name and no other markup is a parsing error |
| `XmlErrors.TooDeep` | src/tinyxml2/tinyxml2.cpp:2541-2550 | 99 start tags one inside the other are refused for their depth, whatever follows |
| `XmlSegments.LoopWithin` | src/tinyxml2/tinyxml2.cpp:1050-1162 | the segments of siblings, and of the end tag after them, lie in order with room for their terminators |
| `XmlSegments.SegmentsApart` | src/tinyxml2/tinyxml2.cpp:215-257 | all segments of a parse are pairwise disjoint, terminators included |
| `XmlPrinter.XMLPrinter.PrintString` | src/tinyxml2/tinyxml2.cpp:2639-2691 | the loop that writes runs between entities appends Escape of the string |
| `XmlPrinter.XMLPrinter.OpenElement` | src/tinyxml2/tinyxml2.cpp:2723-2733 | seals the tag before it and leaves its own open |
| `XmlPrinter.XMLPrinter.PushAttribute` | src/tinyxml2/tinyxml2.cpp:2736-2744 | appends the attribute with its value escaped |
| `XmlPrinter.XMLPrinter.CloseElement` | src/tinyxml2/tinyxml2.cpp:2795-2820 | self-closes a tag still open, else writes the end tag of the innermost element |
| `XmlPrinter.XMLPrinter.PushText` | src/tinyxml2/tinyxml2.cpp:2833-2846 | appends text escaped, or CDATA as it is |
| `XmlPrinter.XMLPrinter.PushMarked` | src/tinyxml2/tinyxml2.cpp:2905-2932 | comments, declarations and unknown markup between their marks |
| `XmlPrinter.XMLPrinter.Visit` | src/tinyxml2/tinyxml2.cpp:2945-2992 | the visitor calls for a node write its print and restore stack and depth |
| `XmlPrinter.XMLPrinter.VisitChildren` | src/tinyxml2/tinyxml2.cpp:2119-2130 | the first child seals the start tag; an element without children leaves it open |
| `XmlPrinter.XMLPrinter.PrintDocument` | src/tinyxml2/tinyxml2.cpp:2454-2463 | a compact printer ends with the print of the document in its buffer, the byte order mark first if the document has one |
| `XmlPrinter.XMLPrinter.PushHeader` | src/tinyxml2/tinyxml2.cpp:2694-2703 | writes the byte order mark and the declaration that are asked for |
| `XmlDocument.XMLDocument.HasAttribute` | src/tinyxml2/tinyxml2.cpp:1955-1960 | whether the name is taken, compared on C strings in the buffer, whose terminators it writes without touching any segment or the text ahead |
| `XmlDocument.XMLDocument.FlushName` | src/tinyxml2/tinyxml2.cpp:1145-1152 | the NUL written behind a compared name touches no other segment and nothing ahead of the cursor |
| `XmlDocument.XMLDocument.ParseTagAttributes` | src/tinyxml2/tinyxml2.cpp:1935-1992 | the loop on the changing buffer reads what ParseAttributes reads on the first text |
| `XmlDocument.XMLDocument.ParseElementDeep` | src/tinyxml2/tinyxml2.cpp:2051-2076 | reads what ParseElement reads, restores the depth, keeps all segments and the text ahead |
| `XmlDocument.XMLDocument.ParseChildren` | src/tinyxml2/tinyxml2.cpp:1069-1071 | counts the depth, refuses the 100th level with the depth error, and restores the count |
| `XmlDocument.XMLDocument.ParseSiblings` | src/tinyxml2/tinyxml2.cpp:1073-1161 | the loop reads what ParseNodes reads, each turn moving the cursor |
| `XmlDocument.XMLDocument.Parse` | src/tinyxml2/tinyxml2.cpp:2525-2539 | the parse that overwrites its own buffer yields the parse of the first text, sets the error and the byte order mark flag accordingly, ends at depth 0 and leaves every segment's bytes |
| `XmlReading.ParseAndRead` | src/tinyxml2/tinyxml2.cpp:289-295 | for any text and any order of reads, each string is the one decoded alone from the text before the parse |
| `XmlReading.PrintAndParse` | src/tinyxml2/tinyxml2.cpp:2454-2463 | printing a document compactly and parsing the output gives it back, mark included, if and only if it is stable, and gives its normal form if it is well-formed |
| `Dom.SpelledBothWays` | src/tinyxml2/tinyxml2.cpp:866-997 | next from firstChild and prev from lastChild spell the same children in opposite directions; no node is in two lists |
| `Dom.UnlinkKeeps` | src/tinyxml2/tinyxml2.cpp:866-887 | the pointer assignments of Unlink take one child out of one list |
| `Dom.SpliceKeeps` | src/tinyxml2/tinyxml2.cpp:903-997 | those of the insertions put a node at one place of one list |
| `Dom.RaisedRanks` | src/tinyxml2/tinyxml2.cpp:903-997 | inserting a node that is not above its new parent makes no cycle |
| `Dom.MovableIff` | src/tinyxml2/tinyxml2.cpp:903-997 | the tree after an insertion has no cycle if and only if the node was neither above its new parent nor that parent |
| `Dom.InsertedIntoItself` | src/tinyxml2/tinyxml2.cpp:903-930 | a node inserted into itself makes a cycle |
| `Dom.LastAfterDetach` | src/tinyxml2/tinyxml2.cpp:986-994 | taking the node out leaves the anchor last exactly when it was last or only that node came after it |
| `Dom.XMLNode.Unlink` | src/tinyxml2/tinyxml2.cpp:866-887 | the child leaves its parent's sequence, all other sequences stay, the document stays consistent |
| `Dom.XMLNode.InsertChildPreamble` | src/tinyxml2/tinyxml2.cpp:1179-1191 | afterwards the node has no parent and is not in the unlinked list |
| `Dom.XMLNode.InsertEndChild` | src/tinyxml2/tinyxml2.cpp:903-930 | the node leaves its old place and becomes the last child; a node of another document changes nothing |
| `Dom.XMLNode.InsertFirstChild` | src/tinyxml2/tinyxml2.cpp:933-961 | the same for the first place |
| `Dom.XMLNode.InsertAfterChild` | src/tinyxml2/tinyxml2.cpp:964-997 | the same for the place after the anchor; a wrong parent or the anchor itself changes nothing; null is dereferenced if and only if the node is already the last child right after the anchor |
| `Dom.InsertWhereItIs` | src/tinyxml2/tinyxml2.cpp:986-996 | inserting the second of two children after the first dereferences null |
| `Dom.XMLNode.DeleteChild` | src/tinyxml2/tinyxml2.cpp:890-900 | exactly the child and all below it leave the document; every other sequence stays |
| `Dom.XMLNode.DeleteNode` | src/tinyxml2/tinyxml2.cpp:1164-1177 | the same for a node without a parent |
| `Dom.XMLNode.DeleteChildren` | src/tinyxml2/tinyxml2.cpp:856-863 | everything below the node leaves, and the recursion ends |
| `Dom.TrimmedBare` | src/tinyxml2/tinyxml2.cpp:856-863 | once no child is left, the nodes gone are all those below |
| `Dom.XMLDocument.MarkInUse` | src/tinyxml2/tinyxml2.cpp:2187-2198 | takes the node off the unlinked list and keeps the others, once each |
| `Dom.SwapRemoved` | src/tinyxml2/tinyxml2.h:282-287 | moving the last entry into the gap removes one entry and no other |
| `Dom.XMLDocument.CreateUnlinkedNode` | src/tinyxml2/tinyxml2.h:1984-1995 | a new node without parent and children, tracked as unlinked once |
| `Dom.XMLDocument.DeleteNode` | src/tinyxml2/tinyxml2.cpp:2302-2317 | the node and all below it leave the document, whether it had a parent or not |
| `Dom.XMLDocument.Clear` | src/tinyxml2/tinyxml2.cpp:2200-2205 | nothing but the document itself is left, and the unlinked list is empty |
| `Dom.OnlyTheRoot` | src/tinyxml2/tinyxml2.cpp:2200-2205 | without unlinked nodes and children of the root there are no other nodes |
| `DomBuild.ParseDom` | src/tinyxml2/tinyxml2.cpp:2423-2451 | parsing into a new document gives the result of the parser functions; the links spell the tree that was read, and no node is left unlinked; after an error the document is empty |
| `DomBuild.ParseInto` | src/tinyxml2/tinyxml2.cpp:1050-1162 | the loop with its recursion, on the links: what is read comes below the node, in order, and every other list stays; all new nodes that remain are children |
| `DomBuild.Settle` | src/tinyxml2/tinyxml2.cpp:1083-1160 | the node just read is inserted at the end exactly if the loop goes on, and else deleted with all below it |
| `DomBuild.InsertMirrors` | src/tinyxml2/tinyxml2.cpp:1160 | inserting a filled node keeps the lists that were there, with their subtrees, and adds its own |
| `DomBuild.DropGrows` | src/tinyxml2/tinyxml2.cpp:1084-1150 | deleting a filled node takes away nothing that was there before it was created |
| `Letters.WholeInjective` | src/key/key_recommander.cc:73-79 | letters without a rest determine the word |
| `EditDistance.Symmetric` | src/key/key_recommander.cc:73-104 | the distance is symmetric |
| `EditDistance.ZeroIffEqual` | src/key/key_recommander.cc:73-104 | it is zero exactly for equal sequences |
| `EditDistance.Triangle` | src/key/key_recommander.cc:73-104 | it satisfies the triangle inequality |
| `EditDistance.FewestEdits` | src/key/key_recommander.cc:73-104 | some script of single-letter insertions, deletions and replacements has that length |
| `EditDistance.NoFewerEdits` | src/key/key_recommander.cc:73-104 | no shorter script turns one word into the other |
| `EditDistance.MinimumEditDist` | src/key/key_recommander.cc:73-104 | the table, with its borders and columns as intended, ends with the distance of the two words |
| `EditDistance.NextRow` | src/key/key_recommander.cc:92-102 | a turn of the outer loop computes the distances of one more prefix |
| `EditDistance.IsAMetric` | src/key/key_recommander.cc:73-104 | on words of one letter width the distance is a metric on strings |
| `EditDistance.MinimumEditDistAsWritten` | src/key/key_recommander.cc:73-104 | the loops as they stand, with every table access and substring checked, come to what AsWritten says |
| `EditDistance.LoopsEnd` | src/key/key_recommander.cc:82-103 | once the loops are entered they read in front of a row, which is undefined, and with any number there go on to a substring out of range |
| `EditDistance.EndsInADistance` | src/key/key_recommander.cc:73-104 | the code as it stands ends in a distance if and only if one word has no whole letter |
| `EditDistance.RightExactlyWhenOneIsEmpty` | src/key/key_recommander.cc:73-104 | so it yields the edit distance exactly then, the width being known; with width -1 it yields a negative number for an empty key |
| `EditDistance.FailsOnEqualWords` | src/key/key_recommander.cc:92-99 | on two equal one-letter words the loops fail already |
| `LetterIndex.DictProducer.CreateIndex` | src/key/dict_producer.cc:115-129 | the index lists under a letter exactly the lines of the words that contain it |
| `LetterIndex.Dictionary.DoQuery` | src/key/dictionary.cc:33-56 | a line is present if and only if some piece of the key is listed for it, with the number of such pieces; the indexes answer as before |
| `LetterIndex.CountsSharedLetters` | src/key/dictionary.cc:33-56 | for a key of one letter width the count is the size of the intersection of the letter sets |
| `LetterIndex.NoWidthNoLines` | src/key/dictionary.cc:33-56 | a key whose first byte tells no width finds nothing |
| `LetterIndex.AskBuilt` | src/key/dict_producer.cc:115-129 | building both indexes and asking gives those intersections for every dictionary |
| `Utf8Keys.WidthOf` | src/key/dictionary.cc:58-67 | the width told from the UTF-8 bytes of a value is 1 below 0x80, none below 0x800, and 3 from there on, also for four bytes |
| `Utf8Keys.PiecesOfText` | src/key/dictionary.cc:33-56 | the pieces of an ASCII text, or of a text of three-byte characters, are its characters |
| `Utf8Keys.AskText` | src/key/dictionary.cc:33-56 | for every such key and every dictionary, a line comes up if and only if its word has a character of the key, with the number of different ones |
| `Utf8Keys.SharedCharacters` | src/key/dictionary.cc:33-56 | for a word of that kind these are the characters that key and word share |
| `Tally.TallyStep` | src/web/web_page_query.cc:37-54 | counting one more key keeps: each thing counted once for each key that leads to it |
| `Tally.FullTally` | src/web/web_page_query.cc:55-60 | a count equals the number of keys exactly when every key leads there |
| `Sums.CauchySchwarz` | src/web/web_page_query.cc:91-116 | the squared product of two vectors is at most the product of their squared lengths |
| `Sums.SumRemove` | src/web/web_page_query.cc:92-113 | the order of a hash map's entries does not change a sum |
| `TfIdf.CaculateValue` | src/web/caculate.cc:5-36 | the three loops give TF times IDF over the length of that vector |
| `TfIdf.LengthIsZero` | src/web/caculate.cc:24-34 | the length is zero only when all raw weights are, so that the division gives NaN or a number |
| `TfIdf.WeightIs` | src/web/caculate.cc:5-36 | each weight is a positive multiple of its term's IDF unless all IDFs are zero |
| `TfIdf.CaculateCosSimilarity` | src/web/web_page_query.cc:88-117 | throws if and only if a term of x is missing in y; otherwise yields X*Y over the lengths |
| `TfIdf.CosineRange` | src/web/web_page_query.cc:88-117 | for a query and a page with all its words it does not throw, and the cosine is in (0, 1], or NaN if and only if all words of the query have IDF zero |
| `InvertedIndex.CutText` | src/common/split_tool.cc:24-47 | adds each word that is no stop word, with the number of its occurrences, to the map it is given |
| `InvertedIndex.DedupedIs` | src/web/page_lib_preprocessor.cc:52-62 | of ascending pages those that stay ascend, no two are equal, and each page removed equals an earlier one that stayed, for any relation |
| `InvertedIndex.PageLibPreprocessor.CreatePageLibList` | src/web/page_lib_preprocessor.cc:14-28 | pages are numbered from 1 |
| `InvertedIndex.PageLibPreprocessor.RmRedundantPages` | src/web/page_lib_preprocessor.cc:52-62 | the erasing loops leave the greedy deduplication |
| `InvertedIndex.PageLibPreprocessor.Cut` | src/web/page_lib_preprocessor.cc:30-38 | pages get the terms of their descriptions, and each term the number of pages that contain it |
| `InvertedIndex.PageLibPreprocessor.BuildInvertIndexTable` | src/web/page_lib_preprocessor.cc:64-97 | the entries of a term are the id and weight of each page that contains it, and no others |
| `InvertedIndex.PageLibPreprocessor.LoadIndexPageList` | src/web/page_lib_preprocessor.cc:135-139 | each id leads to its page |
| `InvertedIndex.PageLibPreprocessor.Do` | src/web/page_lib_preprocessor.cc:44-50 | afterwards ids are unique and all tables agree with the pages that stay |
| `PageQuery.WebPageQuery.GetRelativePages` | src/web/web_page_query.cc:29-62 | exactly the ids of pages that contain every word of the query, once each; none for the empty query |
| `PageQuery.WebPageQuery.CaculateRelativePagesVectors` | src/web/web_page_query.cc:64-86 | a vector for each such page, with the page's weights of the query's words |
| `PageQuery.GetPagesOrder` | src/web/web_page_query.cc:119-132 | the ids by descending cosine, one for each cosine; fails if and only if a vector lacks a term of the query |
| `PageQuery.OrderingIs` | src/web/web_page_query.cc:119-132 | inserting scores one by one leaves each distinct score once, strictly descending, for numbers only or NaNs only |
| `PageQuery.CosinesOrdered` | src/web/web_page_query.cc:119-132 | a query's cosines are all NaN or all numbers in (0, 1] |
| `TfIdf.OneWordCosine` | src/web/web_page_query.cc:88-117 | the cosine of a one-word query to any page with that word is 1, if its IDF is not zero |
| `PageQuery.WebPageQuery.AllFoundIffNoTies` | src/web/web_page_query.cc:119-132 | an answer holds every page that has all words if and only if no two of them have the same cosine |
| `PageQuery.WebPageQuery.OneIsFound` | src/web/web_page_query.cc:119-132 | a question of one word, or whose words all have IDF zero, finds exactly one page if any page answers |
| `PageQuery.OneOfTwoIsDropped` | src/web/web_page_query.cc:13-23 | two different pages that answer a question, of which one is found |
| `Rarity.RarerWeighsMore` | src/web/caculate.cc:13-20 | for an increasing logarithm, a word is on fewer pages than another if and only if its IDF is larger |
| `Rarity.IdfSign` | src/web/caculate.cc:13-20 | it is zero exactly for a word on all pages but one, and positive exactly for one on fewer |
| `Rarity.InProportion` | src/web/caculate.cc:5-36 | the weights are TF * log2(N / (DF + 1)), written out, times one positive number, which is 1 over the length of that vector |
| `Rarity.UnitLength` | src/web/caculate.cc:24-34 | their squares sum to 1, unless all IDFs are zero and all weights NaN |
| `Rarity.CosineScaled` | src/web/web_page_query.cc:88-117 | the cosine does not depend on the lengths of the vectors |
| `Rarity.CosineIsPlain` | src/web/web_page_query.cc:64-86 | so it is the cosine of TF * log2(N / (DF + 1)) over the question's words: a page's other words do not matter |
| `Rarity.FirstIff` | src/web/web_page_query.cc:119-132 | of two pages that have all words, one comes first if and only if its squared product with the question, over its squared length, is larger |
| `Rarity.AlikeTie` | src/web/web_page_query.cc:88-117 | pages with the question's words in the same proportions have the same cosine |
| `Rarity.OneOfAlike` | src/web/web_page_query.cc:119-132 | so that an answer holds at most one of them |
| `Rarity.AllStay` | src/web/page_lib_preprocessor.cc:52-62 | pages that all differ all stay |
| `Rarity.RareWordDecides` | src/web/web_page_query.cc:13-23 | preprocessing twelve pages and asking for two words finds the two pages that have both, and puts the one with more of the rare word first |
| `PageQuery.WebPageQuery.DoQuery` | src/web/web_page_query.cc:13-23 | never throws; no answer if and only if the question has no terms or no page has them all; otherwise the pages found have them all, come by strictly descending cosine, and every page that has them all is found or one with the same cosine is, so that all are found if and only if there are no ties |

## Left out

- Sockets, epoll, accepting connections, files, Redis, logging, configuration: input and output. Of epoll only the
  eventfd counter is modelled.
- jieba segmentation, simhash and the logarithm: parameters of the model. A page whose description is empty has whatever
  simhash value it is given, as in the code, which leaves it uninitialised.
- Rounding of `double` arithmetic: results about weights and cosines hold in exact arithmetic.
- `KeyRecommander::Query`, `Print` and `GetString`: the priority queue of candidates, whose loops drain it only in part.
- The caches' manager and timer, `StoreOnDisk` and the offset library.
- Thread creation, pthread return codes and the order of destruction.
- XML: COLLAPSE_WHITESPACE, parsing without entities, error messages and line numbers, numeric
  conversions, handles, cloning, `DynArray`.
- The parse over the links (`DomBuild`) and the parse over the changing buffer (`XmlDocument`) are two models of one
  method: each is proved against the same parser functions. The nodes of `Dom` have links and no values, so what
  `DomBuild` says of the tree is its shape and order.
- In `Dom` a deleted node leaves the document's tree; that its memory goes back to the pool is in `MemPool` only.
- XmlPrinter.XMLPrinter.PrepareForNewNode: says nothing about the indentation it writes when not compact, because the round trip is about compact output.
- XmlPrinter.XMLPrinter.OpenElement: states the text written only for compact mode, for the same reason.
- XmlPrinter.XMLPrinter.CloseElement: states the text written only for compact mode.
- XmlPrinter.XMLPrinter.PushMarked: states the text written only for compact mode.
- XmlPrinter.XMLPrinter.Visit: states the text written only for compact mode.
- XmlPrinter.XMLPrinter.VisitChildren: states the text written only for compact mode.
- XmlPrinter.XMLPrinter.PushHeader: states the text written only for compact mode.
- XmlPrinter.XMLPrinter.PrintDocument: states the text written only for compact mode.
- Dom.XMLNode.InsertEndChild: asks that the node is not the document's own and not above its new parent. The code does not test this, and otherwise makes a cycle (`MovableIff`), after which walks of the tree do not end.
- Dom.XMLNode.InsertFirstChild: asks the same.
- Dom.XMLNode.InsertAfterChild: asks the same.
- EditDistance.MinimumEditDist: models the intended table; the loops as written are MinimumEditDistAsWritten.
- EditDistance.NextRow: starts at column 1, as part of the intended table.
- StrPair.StrPair.GetStr: does not model COLLAPSE_WHITESPACE, which the default settings never set.
- InvertedIndex.PageLibPreprocessor.Do: is for a new object, on which the code calls it once; a second call would count all terms twice.
- InvertedIndex.PageLibPreprocessor.CreatePageLibList: is for an empty page list, for the same reason.
- InvertedIndex.PageLibPreprocessor.Cut: is for pages without terms and an empty count, for the same reason.
- InvertedIndex.PageLibPreprocessor.BuildInvertIndexTable: is for an empty table, for the same reason.
- InvertedIndex.PageLibPreprocessor.LoadIndexPageList: is for an empty index, for the same reason.
- PageQuery.WebPageQuery.DoQuery: yields the ids of the pages found; the text that CreateJson makes of them is not modelled.
- TaskQueue.CleanShutdown: gives a sufficient condition for all tasks to finish; the exact one is StopIsSafeIff.
- TaskQueue.MissedWorkerHangsStop: assumes that no call of AddTask is under way, since one could still wake the worker.
- Shutdown.StopReturns: bounds the steps left and shows that one is possible; that the scheduler takes it is an assumption on fairness, and that producers are not woken for no reason for ever.
