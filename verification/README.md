# CodeBase: a verified model of its core

CodeBase is an engine for DBF tables and their CDX indexes, in C with a port to C#. This project models the
parts of it whose correctness rests on an invariant and proves what their code and documentation promise.

| module | what it models |
|---|---|
| `Constants` | the constants of a query, how they compare with keys and with each other |
| `Constraints` | the twelve routines that merge the constraints of two query leaves under AND and OR |
| `QueryTree` | the filter tree as a value, its meaning, and the specification of the two rewriters |
| `BitmapHeap` | the rewriters on linked nodes with child lists spliced in place, proved to leave that specification on the heap |
| `TagSeek`, `Digits` | the seeks for the ends of a range in a sorted tag, with prefix constants and duplicates |
| `ConstArena` | the buffer the constants of a query are kept in |
| `Append` | appending a record to tags, memos and data file, its compensation, and taking the last record away |
| `HandOff` | how a stored message reaches a worker thread, step by step, with shutdown in between |
| `TagCursor`, `Table`, `Query` | the cursor over a tag, the record cursor of a table, and the walk of a filter over it |
| `Header` | the writer and the reader of the file header |
| `Compress` | packing records into blocks of one size |
| `Bcd` | the comparison of packed decimals |
| `Engine` | opening and closing tables while the engine is closed |
| `Position` | a record's position as a fraction and back |
| `Wrappers`, `Bytes` | options, bytes and repeated values, used throughout |

Code that changes things in place is a class or a method with loops, proved against specification functions;
the theorems are about those functions. Protocols are state machines whose steps are single accesses to shared
state, and the schedule is arbitrary.

## Where the code falls short

Some promises do not hold of the code. Each is stated with the exact condition under which it does; for the merges
of the first entry that is so for leaves of one constraint, and one way for leaves of several.

- A constant shorter than the keys stands for every key it begins, and the merges compare it with longer ones by
  length where it begins them (`C4CONST.C:1008-1013`). `F = 'AB' .AND. F >= 'ABC'` is found to have no match and
  `F = 'AB' .OR. F < 'ABC'` loses 'ABD': `Constraints.PrefixCollapses`, `Constraints.PrefixDropped`, and
  `QueryTree.PrefixLost` for a whole tree. `Constraints.PairIsRight` has the exact condition for two leaves with one
  constraint each. Leaves with several are merged rightly where no constant of the two begins another
  (`Constraints.CombineMeans`), and the rewriters where that happens on a tag only between the constant of an
  equality and that of an exclusion, which they keep apart (`QueryTree.RedistributeRootMeans`).
- A memo or data write that fails sets the error code, and removing a key does nothing while an error is pending
  (`i4remove.c:127-128`), so the compensation of `d4doAppend` (`D4APPEND.C:899-900`) leaves the keys of a record
  that does not exist. `Append.Table.Append` has the condition, `Append.StrandsAnEntry` an input.
- A tag that ignores repeated keys does not list every record; `Append.KeptIsListed`, `Append.SecondIgnored`.
- A message that is stored while its connection is still being set up, because it has no length or waited too
  long, is left behind when set-up then ends; `HandOff.SetUpIsSafe`, `HandOff.WakeupLost`. It stays there until
  another operation about that connection begins; `HandOff.LostStays`.
- From a record that a tag does not list, a skip starts at the first entry whose key is not below the record's,
  whatever its record number. For every entry with the same key and a lower number the skip is off by one; going
  forwards, it can land on a record that sorts before the one it came from. `Tables.NearSkip` has the condition,
  `Tables.StepsBack` an input. It happens in filtered tags with repeated keys and in tags that ignore repeated
  keys; the search that the port follows goes on to a record number that is not lower (`I4TAG.C:1339-1458`).
- A single step back on a descending tag, from near a record, counts as a step forwards when it steps over an
  entry that names no record; `TagCursors.ZeroStepTurns`, and `Tables.TurnsRound` for an input.
- A record whose key is above every key of a tag counts as lying beyond both ends; `Tables.BeyondSkip`,
  `Tables.BeyondStep`, and `Tables.StepsPast` for an input.
- The greatest possible key of a descending tag is not found by an exact search; `TagCursors.TagCursor.SeekExact`,
  `TagCursors.GreatestKeyMissed`. A skip from its record is right only forwards; `TagCursors.TopmostSteps`,
  and `Tables.TopStays` for an input.
- The note that the tag cursor is only near a record survives when the cursor is next found on the record's entry
  (`TableTagCursor.cs:386-387`). A step forwards, on a descending tag one back, then stays where it is:
  `Tables.StaleStep`, `TagCursors.StaleSkip`, and `Tables.StepsNowhere` for an input. A walk of a query in tag order
  that has the note set, goes that way and meets a rejected record first does not end: `Queries.Query.GoesRound`,
  and `Queries.NeverEnds` for an input. In every other case it ends, and `Queries.Query.StepByTag` says where. If
  the first record is accepted, every move finds it again: `Queries.Query.StaysOnMatch`, `Queries.WalksInPlace`. A
  whole walk therefore ends, having visited the tag's order restricted to the filter, if and only if the note is
  clear, or the direction is not shortened, or no entry names a record (`Queries.Query.VisitByTag`).
- An exact search or its continuation can answer with a record whose key is another one, where no entry from there
  on that matches names a record; `Tables.LandsInRun`, `Tables.FindsAnother`. Continuing from such a record starts
  the search again, and the continuation never runs out: `Tables.VisitRun`, `Tables.RunsOver`, `Tables.StartsOver`.
- The documentation says that every move that is not a seek ends a search (`Table.cs:731-733`). A step or a skip in
  the tag's order from the entry that was found does not, nor does a move to an end of the tag:
  `Tables.Table.StepIndexed`, `Tables.Table.SkipInTagOrder`, `Tables.Table.GoOutermost`, `Tables.SearchOutlives`.
- The length of a record is compared with its limit before the null flags are added, number fields keep one byte
  of their length, a name may begin with the byte that ends the fields, and where records have one byte the end
  mark is counted as one: `Headers.RoundTrip` has the condition, and `Headers.TooWide`, `Headers.LongNumber`,
  `Headers.NamedAsEnd` and `Headers.OneByteRecord` an input for each.
- The decimals of a null-flags image count for its length and not for the width; `Headers.EndsAtWidth`,
  `Headers.EndsBehind`.
- For a constant that cannot be incremented the searches for the last entry not above it and for the first above
  it go wrong, unless the tag's first key begins with zeros; `TagSeeks.AboveTheTop`, with inputs in
  `TagSeeks.LastNotAboveMissed` and `TagSeeks.FirstAboveFound`.
- The check that keeps an empty range empty is made for a pair of constants with everything outside them wanted,
  too (`m4map.c:1942`), and there it loses the lower part when no key lies between; `TagSeeks.SeekOutside`,
  `TagSeeks.LowerMissed`.
- It does not keep the range empty whose lower constant begins the upper one, where keys lie from the one to the
  other and below them; `TagSeeks.SeekRange`, `TagSeeks.NotRefused`.
- At the end of a table of one record the position reported is that of the record; `Positions.RoundTrip`.
- Two bounds with no key between them are not always found to exclude each other; `Constraints.GapIsKept`.

## Model

| member | source | states |
|---|---|---|
| `Constants.AntichainOrdered` | original/source/C4CONST.C:998-1090 | where no constant begins another, the two comparisons are those of one total order |
| `Constants.KeyPlaced` | original/source/C4CONST.C:998-1090 | and every key that is long enough stands to them as a place in that order does |
| `Constants.LessIsOrder` | original/source/C4CONST.C:998-1090 | whatever the constants, the two comparisons are one total order: by the first byte that differs, and a constant before those it begins |
| `Constraints.AndPassMeans` | original/source/m4map.c:411-878 | of two leaves none of whose constants begins another, one pass of the six AND merges keeps the joined meaning at every place, or stops only where none satisfies both; what it leaves is canonical |
| `Constraints.OrPassMeans` | original/source/m4map.c:880-1312 | of such leaves, one pass of the six OR merges keeps the joined meaning at every place, or stops only where every place satisfies one of them; what it leaves is canonical |
| `Constraints.OrPassShape` | original/source/m4map.c:1380-1448 | whatever the constants, a pass of the OR merges leaves nothing in the second leaf, or an equality beside another one |
| `Constraints.OrPassesOnce` | original/source/m4map.c:1380-1448 | so the passes that run for every sibling that follows change nothing after the first |
| `Constraints.CombineMeans` | original/source/m4map.c:1314-1450 | merging two canonical leaves none of whose constants begins another gives a collapse, one leaf or two leaves with the same joined meaning for every key as long as the constants, canonical again |
| `Constraints.PairIsRight` | original/source/m4map.c:411-1312 | for every two leaves of one constraint each, AND and OR, and every key as long as both constants, the merge errs if and only if one constant begins the other and the key, and the comparison with the shorter one is of a kind that is misjudged there |
| `Constraints.CombineDrawn` | original/source/m4map.c:1314-1450 | a merge makes no constraint of its own, except that a constant that is there for two kinds of comparison may be there for a third |
| `Constraints.MergedApart` | original/source/C4CONST.C:200-233 | where constants begin each other only as an equality and an exclusion do, two leaves that are merged have none that do |
| `Constraints.PrefixCollapses` | original/source/m4map.c:493-509 | an equality and a lower bound that one key satisfies, and whose merge finds that none does |
| `Constraints.PrefixDropped` | original/source/m4map.c:1004-1023 | an equality that is dropped beside an upper bound, with a key that only it admits |
| `Constraints.CollapseIsSound` | original/source/m4map.c:383-408 | of such leaves, a merge that collapses does so only if no key satisfies them (AND) or every key does (OR) |
| `Constraints.CollapseIsExact` | original/source/m4map.c:383-408 | and it collapses if and only if that holds of every place in the order of the constants, between any two of which there is one |
| `Constraints.GapIsKept` | original/source/m4map.c:411-878 | no key is above the byte 65 and below 66, and the merge does not collapse: keys do not fill every place |
| `Constraints.OneConstraintNormal` | original/source/m4map.c:186-250 | a leaf as it is created, with one constraint, is canonical |
| `QueryTree.ReduceKeeps` | original/source/C4CONST.C:277-296 | reduction keeps the meaning for every record and the childless nodes in their order, and leaves no node with exactly one child anywhere |
| `QueryTree.ReduceIdempotent` | original/source/C4CONST.C:277-296 | reducing a reduced tree changes neither it nor the tag of its parent |
| `QueryTree.ReduceTags` | original/source/C4CONST.C:110-135 | the reduction of a child never changes the tag of its parent once it is set, and sets it to the tag of the child put there |
| `QueryTree.ShrinkMeans` | original/source/C4CONST.C:110-135 | putting an only child in the place of its branch keeps the meaning |
| `QueryTree.ScanMeans` | original/source/C4CONST.C:170-256 | the children that stay and those moved to the second branch join to the meaning of the children scanned, for constraints of which one begins the other only as an equality and an exclusion do; a collapse agrees with it |
| `QueryTree.ScanWeight` | original/source/C4CONST.C:170-256 | the scan adds no leaf, and what it moves away is strictly less than what it started from, because a child stays behind or the branch collapses: this is what ends the mutual recursion on every tree |
| `QueryTree.ScanSettles` | original/source/C4CONST.C:170-256 | after the scan any two neighbours that stay share tag and operator with the branch, and are two leaves only under OR and beside an equality |
| `QueryTree.RedistributeMeans` | original/source/C4CONST.C:300-380 | for such constraints, the redistributed node and the siblings added behind it join, under the parent's operator, to the meaning of the node; siblings are added only where parent and node share an operator |
| `QueryTree.SettleMeans` | original/source/C4CONST.C:258-270 | the same for the combining half: scan, redistribution of the second branch, shrinking |
| `QueryTree.RedistributeKidsMeans` | original/source/C4CONST.C:97-106 | redistributing a list of children, up to the first that is split, keeps what the branch makes of them |
| `QueryTree.RedistributeRootMeans` | original/source/C4CONST.C:300-380 | redistribution of a whole tree keeps its meaning for every record, if on each tag one constant begins another only where one is that of an equality and the other that of an exclusion |
| `QueryTree.RedistributeTidies` | original/source/C4CONST.C:300-380 | every node a redistribution leaves in the parent's list is free of mergeable neighbours if it has the parent's operator |
| `QueryTree.RedistributeRootTidies` | original/source/C4CONST.C:300-380 | so is the root, or every child of the root that had to be made; in the whole tree exactly the branches without children are marked as matching nothing, and whatever has no children has a tag |
| `QueryTree.RedistributeTags` | original/source/C4CONST.C:170-256 | nor does its redistribution, which sets it to the tag of one of the nodes put there |
| `QueryTree.SimplifyMeans` | original/source/m4map.c:2438-2442 | under the same condition, reducing and then redistributing a filter tree keeps its meaning |
| `QueryTree.PrefixLost` | original/source/m4map.c:2438-2442 | a tree of two leaves with a record that matches it and not what it is simplified to |
| `BitmapHeap.Shrink` | original/source/C4CONST.C:110-135 | on the linked nodes: the only child takes the place of its branch in the parent's list and passes its tag up; otherwise nothing changes |
| `BitmapHeap.ReduceChildren` | original/source/C4CONST.C:285-292 | the loop leaves on the heap the children the specification reduces, each in its place |
| `BitmapHeap.Reduce` | original/source/C4CONST.C:277-296 | the heap after the call is the reduced tree; the parent's list differs in one place and its other fields do not change |
| `BitmapHeap.Collapse` | original/source/m4map.c:383-408 | every child is removed, the branch notes it, and it keeps the first child's tag if it had none |
| `BitmapHeap.CombineLeafs` | original/source/m4map.c:1314-1450 | the list and the two leaves afterwards are those the merge specifies; answers the leaf to go on from, or none after a collapse |
| `BitmapHeap.Split` | original/source/C4CONST.C:139-166 | the right child moves to the end of the second branch, which is created behind the first, under a new parent where there was none |
| `BitmapHeap.Clash` | original/source/C4CONST.C:200-233 | whether two neighbours are kept apart: an exclusion of the one and the equality of the other have different lengths and agree as far as the shorter goes |
| `BitmapHeap.ScanOne` | original/source/C4CONST.C:179-256 | one step of the scan, that split included, keeps the whole outcome that was specified at its start |
| `BitmapHeap.ScanChildren` | original/source/C4CONST.C:170-256 | the scan leaves the branch, the second branch and the parent as the specification has them |
| `BitmapHeap.Gather` | original/source/C4CONST.C:258-273 | the second branch is redistributed under the parent, and what it becomes ends the parent's list |
| `BitmapHeap.Settle` | original/source/C4CONST.C:341-379 | the combining half of a redistribution, with shrinking, and the node it answers |
| `BitmapHeap.RedistributeChildren` | original/source/C4CONST.C:97-106 | the loop over a list that grows under it leaves the children specified; it ends behind a split because what a split adds comes last |
| `BitmapHeap.Redistribute` | original/source/C4CONST.C:300-380 | node, added siblings, parent's list and tag, and the node answered are those specified; every node is old or new, none occurs twice |
| `BitmapHeap.Simplify` | original/source/m4map.c:2438-2442 | both rewriters in turn on a whole tree |
| `TagSeeks.RankIsOrder` | original/source/C4CONST.C:530-695 | what a constant of a leaf means for a key is what it is sought for |
| `TagSeeks.RankGrows` | original/source/I4TAG.C:2197-2290 | in a sorted tag the order of entries against a constant does not fall, also where the constant is a prefix |
| `TagSeeks.LowNext` | original/source/I4TAG.C:2140-2150 | searching for the incremented constant finds where the entries of the constant end |
| `TagSeeks.Tag.Seek` | original/source/I4TAG.C:2197-2356 | a search ends at the first entry not below the constant, a descending one at the last entry not above it |
| `TagSeeks.Tag.SeekEnd` | original/source/C4CONST.C:530-695 | the record answered, or none, for each of the four ends, every constant and every record to avoid |
| `TagSeeks.WantedIsOutermost` | original/source/C4CONST.C:609-694 | what each end is to be: the last entry below the constant or not above it, the first not below it or above it, and none exactly where no entry is on that side |
| `TagSeeks.EndIsWanted` | original/source/C4CONST.C:609-694 | for a constant that can be incremented and no record to avoid: last below, first not below and first above are right always, last not above if and only if there is one |
| `TagSeeks.CheckRefuses` | original/source/C4CONST.C:592-607 | a record to avoid is refused exactly when it is that of the first entry not below (first two ends) or the last not above (last two; for a constant that cannot be incremented, only where the first key begins with zeros), and changes nothing otherwise |
| `TagSeeks.AboveTheTop` | original/source/I4TAG.C:2340-2350 | for a constant that cannot be incremented nothing is above; the last two ends are answered rightly if and only if the first key begins with zeros, or the end is none or the record read past it happens to be right |
| `TagSeeks.LastNotAboveMissed` | original/source/I4TAG.C:2340-2350 | a tag of one entry that is not above the constant, and whose record is not answered |
| `TagSeeks.FirstAboveFound` | original/source/I4TAG.C:2340-2350 | a tag with no entry above the constant, for which a record is answered |
| `TagSeeks.SeekRange` | original/source/m4map.c:1538-1556 | for an open range from a constant to one that is greater as the program orders them, the second seek is refused exactly when no entry lies strictly between, if and only if the lower one does not begin the upper one, or no entry is below the upper one, or none lies from the one to the other; otherwise the two records bracket exactly those between |
| `TagSeeks.NotRefused` | original/source/m4map.c:712-719 | a range whose lower constant begins the upper one, with nothing between and a record answered |
| `TagSeeks.SeekOutside` | original/source/m4map.c:1929-1945 | for what lies outside two constants, the lower end is right if and only if it is not the case that there are entries on both sides and none between |
| `TagSeeks.LowerMissed` | original/source/m4map.c:1929-1945 | two keys on either side, of which the lower is not found |
| `ConstArena.Log.MemAlloc` | original/source/C4CONST.C:934-949 | the buffer grows to what is needed and keeps its bytes; a failed allocation changes nothing |
| `ConstArena.Log.Get` | original/source/C4CONST.C:972-996 | position and length of the buffer stay equal; the value is at the place noted and every earlier constant reads as before |
| `ConstArena.Log.Duplicate` | original/source/C4CONST.C:951-970 | the same for a copy of a constant already in the buffer, which may move while it is copied |
| `ConstArena.KeepsOn` | original/source/C4CONST.C:925-996 | over any number of additions every constant that was issued reads the same |
| `Append.KeptEntries` | original/source/i4addtag.c:989-1062 | every entry of a tag belongs to a record the filter admits, with its key and number, and is there once |
| `Append.KeptIsListed` | original/source/i4addtag.c:646-689 | a tag holds exactly one entry for every admitted record if and only if it takes repeated keys or there are none |
| `Append.SecondIgnored` | original/source/i4addtag.c:646-689 | two records with one key, of which a tag that ignores repeated keys lists the first |
| `Append.MemosFound` | original/source/D4APPEND.C:768-808 | when no write fails and block numbers are written in different ways, the field of every memo holds a number, and the memo stored under the number it is read as is the one written |
| `Append.MemosRest` | original/source/D4APPEND.C:768-808 | every byte outside the memo fields stays, the field of an empty memo is blanked or left alone, and nothing changes from a memo that cannot be written on |
| `Append.MemosBlind` | original/source/D4APPEND.C:768-808 | storing the memos changes no key and no filter, so that what is taken back is what was added |
| `Append.Table.UpdateIndexes` | original/source/D4APPEND.C:685-760 | every tag gets the record, or every tag is as it was: it stops at the first tag whose write fails or that refuses or reports repeated keys, admits the record and has an admitted record with its key, and the answer is that tag's |
| `Append.Table.CancelIndexes` | original/source/D4APPEND.C:583-600 | the record is taken from the tags before the one that stopped, unless an error is pending |
| `Append.Table.UpdateMemos` | original/source/D4APPEND.C:768-808 | record, memo file and code are those of the specification, refused and failed writes included |
| `Append.Table.AppendData` | original/source/D4APPEND.C:200-271 | the file is longer by one record, with the end mark where the format has one, or unchanged |
| `Append.Table.DoAppend` | original/source/D4APPEND.C:869-918 | the whole state after each stage has succeeded or failed |
| `Append.Table.Append` | original/source/D4APPEND.C:1257-1361 | the tags agree with the file afterwards if and only if the append did not strand entries: a memo or data write that reports an error keeps the compensation from removing anything |
| `Append.Table.AppendClean` | original/source/D4APPEND.C:685-760 | where no write fails, an append succeeds if and only if no tag that refuses or reports repeated keys and admits the record has an admitted record with its key; otherwise the first such tag decides between a refusal and an error, and no record is written. The record written is the one in the buffer, with every memo stored and found from its field |
| `Append.StrandsAnEntry` | original/source/D4APPEND.C:899-900 | one tag and a write that fails: the table has no record and the tag an entry |
| `Append.Table.Unappend` | original/source/D4APPEND.C:1744-1915 | file, tags and count are those of the table without its last record |
| `Append.GrownRows` | original/source/D4APPEND.C:226-247 | a written record is the next one, the earlier ones read as before, the length is header, records and mark |
| `Append.CutRows` | original/source/D4APPEND.C:1690-1739 | cutting the file back keeps the records before the cut and the length rule |
| `Append.UnappendUndoes` | original/source/D4APPEND.C:1744-1915 | taking back an append restores the file byte for byte and every tag entry for entry |
| `Append.TakenTooMuch` | original/source/D4APPEND.C:899-900 | a tag that took the record of a failed append is wrong for the records of the file |
| `HandOff.StepKeeps` | original/source/C4THREAD.C:24-56 | the invariant of the hand-off holds after every step of every thread |
| `HandOff.RunKeeps` | original/source/C4CONECT.C:512-606 | and so in every state of every interleaving in which set-up ends in order |
| `HandOff.NoLostWakeup` | original/source/C4THREAD.C:668-698 | a connection with messages that is not shut down is on the to-service list or serviced, or the thread that stores them is about to list it |
| `HandOff.IdleIsEmpty` | original/source/C4CONECT.C:580-600 | an idle connection whose mutex is free has no messages, is not listed and is not serviced |
| `HandOff.OneOwner` | original/source/C4THREAD.C:675-690 | a connection is listed at most once, serviced by at most one worker, and never both |
| `HandOff.EnoughWakeups` | original/source/C4THREAD.C:688 | listed connections never outnumber the semaphore's count, the woken workers and the threads about to release it |
| `HandOff.NoDeadlock` | original/source/C4THREAD.C:33-56 | while a mutex is held, a thread that holds one can move |
| `HandOff.ShutdownStays` | original/source/C4THREAD.C:51-52 | a connection leaves the shut-down state if and only if its set-up ends after its shutdown |
| `HandOff.ShutsDown` | original/source/C4THREAD.C:24-56 | in every run in which no set-up of it ends, a connection is shut down when the thread that began its shutdown has done so, and stays shut down |
| `HandOff.ShutEnds` | original/source/C4CONECT.C:573-606 | a message lists its connection if and only if that is idle, and a worker that asks about a connection shut down stops and is ready again |
| `HandOff.ShutIsLeft` | original/source/C4THREAD.C:668-698 | a connection shut down, unlisted and unserviced is never listed or serviced again, and none of its messages is taken, in every run in which no set-up of it ends |
| `HandOff.SetUpIsSafe` | original/source/C4CONECT.C:418-428 | ending set-up keeps the invariant if and only if nothing has been stored or the storing thread has yet to look at the state |
| `HandOff.WakeupLost` | original/source/C4THREAD.C:656-668 | a run after which a connection is idle with a message that was stored during its set-up, while it is not listed and no thread is about it |
| `HandOff.LostStays` | original/source/C4THREAD.C:668-698 | such a connection stays idle and unlisted, with its messages, in every run in which no thread begins an operation about it |
| `HandOff.EarlyAreFailed` | original/source/C4THREAD.C:656-664 | in every run, only messages without a positive length are stored for a connection that is being set up |
| `HandOff.StoresAlone` | original/source/C4THREAD.C:656-691 | storing that nobody disturbs: the message at the end or the top, and an idle connection listed last, working, and one more worker let through |
| `HandOff.ServesAlone` | original/source/C4CONECT.C:512-606 | a worker that nobody disturbs takes the first listed connection and serves it until it is idle and has no messages; of one shut down it takes at most one message |
| `HandOff.ShutsAlone` | original/source/C4THREAD.C:24-56 | a shutdown that nobody disturbs, and the end of a set-up, change the work state of their connection and nothing else |
| `HandOff.UndoneAlone` | original/source/C4CONECT.C:434-506 | the removal of a connection shut down takes it off the list and leaves the order of the others |
| `HandOff.Conserved` | original/source/C4THREAD.C:669-672 | no message is lost or taken twice, in any interleaving |
| `HandOff.InOrder` | original/source/C4THREAD.C:669-672 | messages are taken in the order in which they were stored, as long as none is put back at the top |
| `TagCursors.TagCursor.StepPhysical` | net/CodeBase.Net/Cdx/TagCursor.cs:459-570 | one step within the tag, or the flag of the end it ran off |
| `TagCursors.TagCursor.Skip` | net/CodeBase.Net/Cdx/TagCursor.cs:144-156 | the step count is met if and only if the tag is long enough, and the cursor is then that many entries on in the tag's own order |
| `TagCursors.TagCursor.Seek` | net/CodeBase.Net/Cdx/TagCursor.cs:184-210 | where a search for a key, a prefix or the empty value ends and what it answers, ascending and descending |
| `TagCursors.TagCursor.SeekAtOrBefore` | net/CodeBase.Net/Cdx/TagCursor.cs:225-241 | the same for the search backwards |
| `TagCursors.SoughtIsFirst` | net/CodeBase.Net/Cdx/TagCursor.cs:171-241 | those are the first entry in the tag's own order that is not before what is sought, unless that is the greatest key of a descending tag, and the last that is not after it |
| `TagCursors.TagCursor.SeekAdjacent` | net/CodeBase.Net/Cdx/TagCursor.cs:335-345 | the next entry that matches or the one before, or a new search from an entry that does not; found if and only if that entry matches |
| `TagCursors.TagCursor.SeekExact` | net/CodeBase.Net/Cdx/TagCursor.cs:305-330 | found if and only if the tag has the key with the record, except for the greatest key of a descending tag |
| `TagCursors.GreatestKeyMissed` | net/CodeBase.Net/Cdx/TagCursor.cs:193-198 | a descending tag that lists the greatest key, which is not found |
| `TagCursors.TagCursor.Land` | net/CodeBase.Net/Dbf/TableTagCursor.cs:440-462 | the first entry in the direction of travel whose record the table has |
| `TagCursors.TagCursor.Step` | net/CodeBase.Net/Dbf/TableTagCursor.cs:352-369 | where a walk of that many entries ends, at either end too |
| `TagCursors.WalkLands` | net/CodeBase.Net/Dbf/TableTagCursor.cs:352-369 | where the step ends, for every n: on the first record, in the tag's own order, from the n-th entry on, or before it; off the front on the first record of the whole order; past the end at the end |
| `TagCursors.PlaceLands` | net/CodeBase.Net/Dbf/TableTagCursor.cs:352-369 | and from the place of an unlisted record, by the number of entries that come before it |
| `TagCursors.WholeOrder` | net/CodeBase.Net/Dbf/TableTagCursor.cs:440-462 | the two ends of the tag lead to the first and the last record of its order |
| `TagCursors.TagCursor.Synchronize` | net/CodeBase.Net/Dbf/TableTagCursor.cs:384-424 | on the record's entry, near where it would be, or nowhere; what becomes of the note that it was near and of a search that is running |
| `TagCursors.PlaceNames` | net/CodeBase.Net/Dbf/TableTagCursor.cs:384-424 | that entry names the record, unless the search finds none; then it is the first whose key is not below the record's, with the note, and there is none only if every key is below |
| `TagCursors.PlaceIsBetween` | net/CodeBase.Net/Table.cs:838-847 | the entry that a step of n from an unlisted record is to reach: the n-th after or before the entries that come before it in the tag's own order, by key and record number |
| `TagCursors.NearestIsRight` | net/CodeBase.Net/Table.cs:838-847 | the step that is taken is headed for that entry if and only if no entry with the record's key has a lower record number, for every n, ascending and descending |
| `TagCursors.NearestLands` | net/CodeBase.Net/Dbf/TableTagCursor.cs:352-369 | it lands as that step would if and only if this holds, or the entries between the two name no record, or both run off the tag |
| `TagCursors.ZeroStepTurns` | net/CodeBase.Net/Dbf/TableTagCursor.cs:352-369 | one step back on a descending tag lands rightly if and only if no lower record has the key and the entry there names a record of the table, or neither walk meets one |
| `TagCursors.TopmostSteps` | net/CodeBase.Net/Table.cs:838-847 | from the listed record of a descending tag's greatest key a step is right if and only if it goes forwards and no lower record has the key |
| `TagCursors.StaleSkip` | net/CodeBase.Net/Dbf/TableTagCursor.cs:386-387 | a skip of n from a listed record is right if and only if no earlier synchronization has left its note behind, or the skip goes the way that is not shortened, or the entry the shortened one is headed for lies off the tag or is passed over |
| `Tables.Table.Go` | net/CodeBase.Net/Table.cs:305-320 | position, answer and buffer for every number, the refused and the missing included |
| `Tables.Table.Reached` | net/CodeBase.Net/Table.cs:1065-1079 | the record an indexed move reached, or both ends |
| `Tables.Table.Skip` | net/CodeBase.Net/Table.cs:391-436 | the outcome of a skip in record order and in tag order from every position |
| `Tables.Table.SkipInTagOrder` | net/CodeBase.Net/Table.cs:515-572 | what a skip in tag order answers and where it leaves the cursor, read off the list of the entries in that order, from past the end too; off the front it is at the beginning, on the first record |
| `Tables.Table.SkipLands` | net/CodeBase.Net/Table.cs:538-572 | the walk of a skip and what it answers are what the order of the tag says, at both ends and where no entry names a record |
| `Tables.Table.EndsAre` | net/CodeBase.Net/Table.cs:322-346 | the ends of a tag are the first and the last record of its order that the table has |
| `Tables.Table.SkipFromRecord` | net/CodeBase.Net/Table.cs:538-572 | the walk from the record's entry or from near it |
| `Tables.Table.StepIndexed` | net/CodeBase.Net/Table.cs:577-608 | one step in a tag's order from wherever the record cursor is; whether a running search goes on |
| `Tables.Table.StepLands` | net/CodeBase.Net/Table.cs:577-608 | a step leads to the record met first from the place it is headed for, if the tag has that place and there is one |
| `Tables.NearSkip` | net/CodeBase.Net/Table.cs:538-572 | a skip from an unlisted record answers and lands like a walk from the record's place if and only if no entry with its key has a lower record, or the two walks land alike nevertheless |
| `Tables.BeyondSkip` | net/CodeBase.Net/Table.cs:858-863 | for a record whose key is above every key of the tag, a skip answers and lands like that walk if and only if it goes forwards and runs off the tag, or meets no record of a table that is at both ends |
| `Tables.BeyondStep` | net/CodeBase.Net/Table.cs:599-600 | and a single step if and only if it goes towards greater keys or the tag names no record of the table |
| `Tables.StaleStep` | net/CodeBase.Net/Dbf/TableTagCursor.cs:386-387 | a step from a listed record is right if and only if no earlier synchronization has left its note behind or the step goes the way that is not shortened; otherwise it stays where it is |
| `Tables.StepsBack` | net/CodeBase.Net/Table.cs:541-549 | a step forwards that lands on a record that sorts before the one it came from |
| `Tables.StepsPast` | net/CodeBase.Net/Table.cs:858-863 | a skip back that ends past the table and not on the first record |
| `Tables.StepsNowhere` | net/CodeBase.Net/Dbf/TableTagCursor.cs:386-387 | two steps, of which the second stays where the first landed |
| `Tables.TurnsRound` | net/CodeBase.Net/Dbf/TableTagCursor.cs:352-369 | a step back on a descending tag that lands on the other side |
| `Tables.TopStays` | net/CodeBase.Net/Table.cs:838-847 | a step back from the first record of a descending tag that is answered as made |
| `Tables.Table.SeekExactly` | net/CodeBase.Net/Table.cs:757-764 | found if and only if the tag's first entry in order that is not before what is sought matches it, and then on the first record from there that the table has; for keys, prefixes and the empty value |
| `Tables.LandsInRun` | net/CodeBase.Net/Dbf/TableTagCursor.cs:308-318 | what a search or its continuation lands on matches if and only if some entry from there on that matches names a record of the table |
| `Tables.FindsAnother` | net/CodeBase.Net/Dbf/TableTagCursor.cs:308-318 | a search that answers a record with another key |
| `Tables.Table.SeekNear` | net/CodeBase.Net/Table.cs:766-785 | the record a positioning seek lands on and the answer it gives |
| `Tables.Table.LandsOnIs` | net/CodeBase.Net/Dbf/TableTagCursor.cs:308-318 | a search lands on the record met first from the entry it ends at, in the order of the tag |
| `Tables.Table.Continue` | net/CodeBase.Net/Table.cs:787-804 | the next record of the search that is running or the one before; refused if none is |
| `Tables.Table.ContinuesBeside` | net/CodeBase.Net/Cdx/TagCursor.cs:335-345 | from an entry that matches it looks at the entry beside it in the tag's own order, in either direction, and lands on the record met first from there |
| `Tables.VisitRun` | net/CodeBase.Net/Table.cs:724-735 | unless a landing leaves the run, a search and its continuation visit every entry that matches and names a record, once, in the tag's own order |
| `Tables.RunsOver` | net/CodeBase.Net/Table.cs:787-804 | and if one does, there is a next record after any number of continuations |
| `Tables.StartsOver` | net/CodeBase.Net/Table.cs:787-804 | three records of a search, of which the second has another key and the third is the first again |
| `Tables.SearchOutlives` | net/CodeBase.Net/Table.cs:577-608 | a step in the tag's order after which the search is still running |
| `Tables.Table.SelectTag` | net/CodeBase.Net/Table.cs:452-458 | selecting a tag leaves position and buffer alone and ends the search of the one before |
| `Tables.Table.Refresh` | net/CodeBase.Net/Table.cs:1389-1399 | position and buffer are as before, the selected tag's cursor is nowhere |
| `Queries.Query.StepByRecord` | net/CodeBase.Net/Query.cs:211-231 | lands on the next record, or the one before, that the filter accepts, judged by the filter alone |
| `Queries.Query.Outermost` | net/CodeBase.Net/Query.cs:101-123 | the first and the last match |
| `Queries.Query.Move` | net/CodeBase.Net/Query.cs:189-201 | the next match and the one before; past an end the flags stay set and the query reports no record |
| `Queries.Query.Count` | net/CodeBase.Net/Query.cs:75-93 | the number of records a scan accepts, whether or not anything is left to check |
| `Queries.Query.StepByTag` | net/CodeBase.Net/Query.cs:241-257 | where the walk ends, lands on the first entry from its first landing on whose record the filter accepts, in every case in which it ends |
| `Queries.Query.NextIsBeside` | net/CodeBase.Net/Query.cs:241-257 | from a listed record that match is the first from the entry beside it on |
| `Queries.Query.GoesRound` | net/CodeBase.Net/Query.cs:248-254 | in every other case the walk is on the same rejected record after any number of rounds |
| `Queries.NeverEnds` | net/CodeBase.Net/Query.cs:248-254 | a filtered tag and a filter for which the next match is never reached |
| `Queries.Query.OutermostByTag` | net/CodeBase.Net/Query.cs:101-123 | the first and the last match in the tag's order |
| `Queries.Query.MoveByTag` | net/CodeBase.Net/Query.cs:189-201 | the next match in the tag's order and the one before, from every position; refused without a record to start from |
| `Queries.Query.Visit` | net/CodeBase.Net/Query.cs:101-136 | from one end to the other: the visited records are the scan, backwards the scan reversed |
| `Queries.Query.VisitByTag` | net/CodeBase.Net/Query.cs:101-136 | with a tag selected: the visited records are the tag's order restricted to the accepted records, or that reversed, unless the nearness note is set, the direction shortened and some entry names a record |
| `Queries.Query.StaysOnMatch` | net/CodeBase.Net/Query.cs:126-136 | and in that case, where the first record is accepted, every move answers it again |
| `Queries.WalksInPlace` | net/CodeBase.Net/Query.cs:126-136 | a query that finds its first record again and again |
| `Queries.ForwardsIsScan` | net/CodeBase.Net/Query.cs:211-231 | a whole forward walk is the scan: each accepted record once, in increasing order |
| `Queries.BackwardsIsScan` | net/CodeBase.Net/Query.cs:211-231 | a whole backward walk is the same list reversed |
| `Queries.ScannedExactly` | net/CodeBase.Net/Query.cs:6-20 | the scan lists a record if and only if the filter accepts it, in increasing order |
| `Queries.WalkedInOrder` | net/CodeBase.Net/Query.cs:241-257 | a whole walk in a tag's order, in either direction, is the tag's order restricted to the accepted records |
| `Headers.CalculateRecordLength` | original/source/D4CREATE.C:847-1096 | width, null count and memo flag, or the error, for every list of definitions |
| `Headers.CreateHeader` | original/source/D4CREATE.C:1305-1789 | the bytes written are the header specified and number exactly the header length they state, one more without compatibility 30 |
| `Headers.SetNumFields` | original/source/D4OPEN.C:2694-2751 | the number of images before the first one that starts with the end byte |
| `Headers.SetupFields` | original/source/D4OPEN.C:2371-2690 | the width the images add up to, or why they cannot be read |
| `Headers.ConcludeSetupFields` | original/source/D4OPEN.C:261-429 | type, length, decimals, null bit, binary flag and offset of every field |
| `Headers.OpenHeader` | original/source/D4OPEN.C:2105-2366 | a header opens, shared or exclusively, if and only if it is sound, and gives the table it describes |
| `Headers.Disjoint` | original/source/D4OPEN.C:432-433 | in every table that opens, fields lie from byte 1 on and share no byte |
| `Headers.Contiguous` | original/source/D4OPEN.C:432-433 | each field begins where the one before it ends |
| `Headers.EndsAtWidth` | original/source/D4OPEN.C:420-427 | the last field ends with the record if and only if no null-flags image has decimals |
| `Headers.EndsBehind` | original/source/D4OPEN.C:420-427 | a header whose only field ends 256 bytes behind the record |
| `Headers.NullBitsDistinct` | original/source/D4OPEN.C:361-371 | two nullable fields have different bits, all within the bytes that many null bits take |
| `Headers.NullBitAt` | net/CodeBase.Net/Table.cs:1329-1340 | the byte and the mask of a nullable field are those of its place among the nullable fields, which is the bit that is read |
| `Headers.NullsApart` | net/CodeBase.Net/Table.cs:1329-1340 | in every table that opens, changing the null bit of one field changes what no other field reads |
| `Headers.RoundTrip` | original/source/D4CREATE.C:1305-1789 | a created header opens and gives back every definition, null flags included, if and only if the record with its null flags is narrower than 65536 bytes, no number field is longer than 255, no name begins with a carriage return, and it is not opened exclusively with one-byte records and an end mark |
| `Headers.OffsetsStored` | original/source/D4CREATE.C:1489-1789 | where the fields before it take up the bytes they are defined with, the offset stored with a field, a signed number of four bytes, is the one opening gives it if and only if it is below 32768 and no number before it is longer than 255 |
| `Headers.OldLetters` | original/source/D4OPEN.C:2371-2690 | a file of an older version that opens has no field of a type that is new in Visual FoxPro |
| `Headers.LongNumber` | original/source/D4CREATE.C:1489-1789 | a number of 256 bytes, which cannot be read back |
| `Headers.NamedAsEnd` | original/source/D4CREATE.C:1489-1491 | a name that ends the fields |
| `Headers.OneByteRecord` | original/source/D4OPEN.C:2245-2262 | a field of no length, whose file cannot be opened exclusively |
| `Headers.TooWide` | original/source/D4CREATE.C:1072-1082 | nine definitions that are created and cannot be opened |
| `Headers.NameRead` | original/source/D4CREATE.C:1489-1491 | a stored name is read back |
| `Compress.Packer.Copy` | original/source/D4CREATE.C:2774-2826 | a piece of a record joins what the buffer holds; a full buffer is packed |
| `Compress.Packer.Flush` | original/source/D4CREATE.C:2779-2822 | a full buffer becomes the next block, its offset noted at an index within the list |
| `Compress.Packer.Finish` | original/source/D4CREATE.C:2847-2880 | the last piece is packed with zeros behind it, and the block count is the one set aside |
| `Compress.CompressTable` | original/source/D4CREATE.C:2745-2881 | for every record width and block size the block count is count times width over block size, plus one, and every block is in its place |
| `Compress.JoinedAll` | original/source/D4CREATE.C:2489-2490 | the blocks joined are the records, filled up with zeros to a whole number of blocks |
| `Compress.StrungAt` | original/source/D4CREATE.C:2745-2881 | every record is where its number times the width says |
| `Compress.StretchIsBlock` | original/source/D4CREATE.C:2419-2440 | the offset list cuts the file into the packed blocks, with nothing between them |
| `Compress.Lossless` | original/source/D4CREATE.C:2745-2881 | unpacking block by block gives back the records and zeros |
| `Bcds.CmpIsNumeric` | original/source/C4BCD.C:34-81 | on normalised packed decimals the sign of the comparison is that of the difference of the numbers |
| `Bcds.CmpIsOrder` | original/source/C4BCD.C:34-81 | it is antisymmetric and transitive, and zero exactly on equal numbers |
| `Digits.CompareIsOrder` | original/source/C4BCD.C:74-80 | comparing digits of one base from the first on compares the numbers |
| `Engines.StepKeeps` | net/CodeBase.Net/CodeBaseEngine.cs:152-227 | after every step a table is listed, or disposed, or some thread will see to it |
| `Engines.NoLeak` | net/CodeBase.Net/CodeBaseEngine.cs:199-227 | once the engine is closed and every call has returned, no table is listed and every table ever built is disposed; before that, listed are exactly those not disposed |
| `Engines.DisposeCloses` | net/CodeBase.Net/CodeBaseEngine.cs:199-218 | closing an open engine leaves it closed with nothing listed, and the thread has taken over exactly the tables that were listed |
| `Engines.ClosesAll` | net/CodeBase.Net/CodeBaseEngine.cs:199-227 | in every run in which a thread comes to close the engine, once every call has returned the engine is closed, nothing is listed and every table ever built is disposed |
| `Engines.DisposesAlone` | net/CodeBase.Net/CodeBaseEngine.cs:199-227 | closing that nobody disturbs comes to an end, with every listed table disposed that no other call had marked, and no other touched |
| `Engines.ClosesAlone` | net/CodeBase.Net/CodeBaseEngine.cs:218-227 | closing one table disposes it and takes it off the list, whose order stays |
| `Engines.OpensAlone` | net/CodeBase.Net/CodeBaseEngine.cs:152-173 | an open returns a new table, listed last; of a closed engine, nothing |
| `Engines.OpenOutcome` | net/CodeBase.Net/CodeBaseEngine.cs:160-173 | a racing open returns a listed table; or, in every run that follows, its table is never returned or listed, and is disposed once the thread is done with it |
| `Positions.RoundTrip` | original/source/D4POSITI.C:103-109 | setting the position reported returns to the record, and from behind the last one to the end, if and only if the table has not one record only and is at its end; from before the first one it goes to the top |
| `Positions.NearAsFraction` | original/source/D4POSITI.C:229-235 | the record reached is in the table and within half a record step of the fraction |
| `Positions.Monotone` | original/source/D4POSITI.C:171-235 | a greater fraction does not lead to an earlier record |

## Left out

- `bitmap4redistributeLeaf`, `bitmap4redistributeBranch` and `bitmap4constantCombine`: the outer branch is created with AND where distribution needs OR.
- Leaves whose operator is not set, which a filter of a single comparison leaves as its whole tree.
- Constraints.CombineMeans: says nothing where a constant of the two leaves begins another, for which `PairIsRight` has the exact condition of one-constraint leaves; keys are as long as the constants, numbers and dates are compared as the bytes of their keys, and `const4eq`, which reads past the shorter constant (`C4CONST.C:1020-1049`), is equality.
- Redistribution stops at the first child that is split; its later siblings are not redistributed, which the specification follows.
- Failed allocation in the rewriters, and the freeing of nodes that were cut out.
- TagCursors.TagCursor.StepPhysical: the chain of leaf blocks is one list of entries, so crossing from one block to the next, over empty ones, is not there.
- The block structure of an index: a tag is the sorted list of its entries, a descent the count of the keys below the one sought, and reading a block cannot fail.
- TagSeeks.Tag.SeekEnd: the record read past the end, for the last entry not above a constant when there is none, is a parameter; constants in general collating sequences are not modelled.
- TagSeeks.SeekRange: for a lower constant that is less than the upper one, since other pairs collapse; the loop that sets the flags of a range, which chooses its direction by position, is not modelled.
- Deleted-row reuse, batches, auto-increment, time stamps, locks, the transaction log and its list of removed keys in an append; rebuilding an index after an exception.
- Append.Table.Append: candidate tags that refuse null keys are not modelled, and a failing key removal or file write leaves its target unchanged.
- Append.MemosBlind: that keys and filters do not depend on the memo fields is asked of the table's tags.
- Append.MemosFound: how a block number is written into a field is a parameter, asked to be different for different numbers.
- Append.Table.Unappend: the record buffer still holds the appended record, the file operations succeed, and memo blocks are not reclaimed.
- Sockets, counters of failures, the connected flag and the retrieving state of a connection; the step that sets the working state when a message is received (`c4com.c:749-779`), which is outside the mutex of the messages; a worker that gives a connection up after an error.
- HandOff.NoLostWakeup: for interleavings in which every set-up ends under the condition of `SetUpIsSafe`.
- Liveness: a thread that can move need not be scheduled.
- Field values, encodings, memo reading, caches and the refusal of a second operation at the same time in `Table`; turning a value into a key, so that what is sought is a range of keys; two tags sharing a table are two cursor objects.
- `RecordPosition` is a value the table holds, not an object of its own.
- Compiling and planning a filter: the planner is the contract `Planned`, and the candidates are a set rather than a bitmap.
- Queries.Query.StepByTag: asks for the condition under which the loop ends.
- Queries.Query.VisitByTag: asks for the condition under which the walk ends.
- Tables.VisitRun: asks for the condition under which the continuation ends.
- Auto-increment, time stamps, compressed memos and long names when a header is written, OLE-DB field types, encryption padding, byte swapping and large files.
- Headers.OpenHeader: a file whose flags name auto-increment, time stamps or long names is refused, and the byte after the header is not read.
- Headers.CreateHeader: a name of more than ten characters is refused; with compatibility 30 the program writes another format for them.
- Error paths and the writable variant of packing; compression is a pair of inverse functions.
- Bcds.CmpIsNumeric: for normalised decimals of at most twenty digits.
- Making a packed decimal from a number or from text.
- Rounding of floating point in `Position`, which is over the reals, and positions in tag order.
- The list mutex of the engine is one step; what opening a file does is not modelled.
