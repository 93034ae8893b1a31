# Opie core algorithms in Dafny

A Dafny model of six pieces of algorithm in the Opie/Qtopia libraries, with proofs of what
each is for. `dafny verify dfyconfig.toml` checks everything.

| files | what they model |
|---|---|
| `WordTrees`, `WordLists`, `StoredWords`, `Trie`, `Packing`, `Dawg` | the word list index: a list of words becomes a sorted trie, equal subtrees are merged in place by hashed clubs, the resulting graph is packed into one array of bit-field nodes with relative jumps, and look-up, counting and listing run on that array |
| `Calendar`, `Recurrence` | the datebook's search for the next occurrence of a repeating event, its exceptions, and the occurrences in a window |
| `Journal` | the datebook's two event lists, its file and its write-ahead journal |
| `Splitter` | dragging a splitter handle, and the order and visibility of widgets and handles |
| `Signature` | the D-Bus signature parser against the signature printer ("Type System" section of the D-Bus Specification) |
| `Config`, `ListCodec`, `ListEntry`, `ConfigCache` | configuration files, string lists in an entry and what the file makes of them, and the cache of parsed files |
| `AlarmServer` | the alarm list with its cached earliest alarm, its timer and its saved copy |
| `Options` | a value that may be absent |

## How the parts fit

**Word graph.** A *word tree* (`WordTrees.Tree`) is the meaning of a trie node: which words
can be spelled below it. `TrieOf(S, T)` ties a set of heap nodes to a tree; key distribution,
merging and packing keep that tie. Merging leaves one node per tree, hence one node per
language (`Dawgs.MergedIsMinimal`). Packing keeps a map from trees to block positions; each
block is written once, blocks do not overlap, they fill the array counted beforehand, and a jump
lands on the start of the child's block exactly if the difference fits the 18-bit field and is
not 0 and the block does not stand at a multiple of 2^18, which reads as no jump (`JumpExact`,
for arrays of any size, although the program truncates the position before it takes the
difference). `Places` is where packing puts the blocks, so `AllJumpsFit` is a condition
on the list, met by every list of at most 131072 packed nodes (`SmallListsFit`). Beyond that the
program's warning is no guide: for blocks from 131072 to 262144 it is printed exactly for the
jumps that are right (`WarningMisleads`, which names the range). `Dawgs.LookUp` and
`Dawgs.Listing` are the statements from list to answer. Letters are stored in 12 bits. A word
with a wider letter is never found and is listed as it reads, while a word that is not in the
list may be found because a wide one reads like it (`WideExample`: U+1061 makes "a" found).
Non-empty narrow words of the list are always found, whatever else it holds, and what is found
is always the reading of some word (`FindsBounds`). All answers, and the listing, are right exactly if
every word of the list is narrow (`AnswersRightIff`, `ListedReadings`). The key is a 32-bit int
and wraps.
A list holding only the empty word packs to an array without nodes, on which the program's
look-up would read past the end; `CreateFromWords` says exactly when that is (`NoLetters`), and
look-ups require a non-empty array.

**Recurrence.** Dates are day numbers of an unbounded proleptic Gregorian calendar. An event
occurs on its start day and afterwards on the days of its pattern; `Answer` says that a search
gives the least occurrence on or after a day unless that is past the end date. The month loops
end because the calendar repeats after 400 years, weekdays included. The comment in the source
that two special non-leap years are never hit in a row is wrong for 29 February repeated every
25, 50, 75, 100, ... years, not a multiple of 200: `SkipsTwice` is the exact set of searches
that then return a null date, and `NullExample` a family of them. No such search is passed
over (`SkipReached`), so that the search past exceptions answers with a null date exactly if
only excepted days come before one, and the loop over a window exactly if the window holds a
day whose search is null; it has then shown the days before that and no others.

**Journal.** `EditReplays` is the exact condition under which the journal line of an edit,
read back, gives the lists the edit left; additions and removals always replay. It fails when
the edited event is absent, when the stored index leads back to a different but equal event
(`TwinExample`), or when an edit of a repeating event removes several equal ones at once.
A run replays at every point exactly if all its edits meet the condition (`RunReplays`).
A save writes the new file before it removes the journal; `Harmless` is the exact condition
under which one operation may be replayed once more over the file, were the save cut off there,
and no journal that adds more events than it removes may be (`CutOffGrows`).

**Signatures.** Basic prototypes can be printed but not read back, and they take the struct
they stand in with them. `Read` is what the parser makes of any prototype's signature, whatever
follows it; `Formed` says exactly which come back as they were.

**Lists in entries.** The documentation of the list entry says that its strings may hold any
character. The encoding keeps them (`ListRoundTrip`), but the file does not: a list is written and
read back with it exactly if no string holds a newline and the first does not start with white
space (`ListPrintable`).

**Splitter.** The two recursions are proved equal to functions that do not see the drawing
order, and those to keep the tiling, the size limits and all items that need not move. The
range is exactly the set of positions some layout has, so the handle ends at the reachable
position closest to the one asked for.

**Foreign behaviour assumed.** Qt's pointer list makes the next item current when the current
one is removed (the new last one if it was the last), and moves iterators along; the alarm
server's delete loop therefore passes over the alarm after one it removes, which its
documentation does not say. Event equality and list operations are those of the toolkit's value
list. Files are read and written without failing. Clocks and file status are parameters.

## Model

| member | source | states |
|---|---|---|
| WordTrees.InsertAccepts | library/qdawg.cpp:109-117 | inserting a word adds that word to the language and changes nothing else |
| WordTrees.InsertAllAccepts | library/qdawg.cpp:493-496 | the tree of a list accepts exactly its words, is sorted, has no dead branch, and every leaf is a word |
| WordTrees.InsertByEdge | library/qdawg.cpp:109-117 | inserting below a path is adding one letter and inserting the rest one level down |
| WordTrees.LanguageDeterminesTree | library/qdawg.cpp:119-125 | sorted trees without dead branches that accept the same words are the same tree, so structural equality decides language equality |
| WordTrees.KeyZeroIsLeaf | library/qdawg.cpp:153-156 | the wrapped 32-bit key is 0 exactly for nodes without children |
| WordTrees.WrapExact | library/qdawg.cpp:139-156 | what a 32-bit int keeps of a key: the one number of the same residue modulo 2^32 in its range |
| WordTrees.DepthAbove | library/qdawg.cpp:141-150 | a leaf has the least int as its depth, a parent is one deeper than its deepest child |
| WordTrees.NarrowIffWords | library/qdawg.h:44-48 | all letters of the tree fit 12 bits exactly if those of the list do |
| Tries.SortedSplice | library/qdawg.cpp:212-217 | prepending and sorting puts a new child at its place and keeps the others |
| Tries.QTrie.FindAdd | library/qdawg.cpp:206-219 | returns the child for a letter, growing the trie by one empty node only if there was none |
| Tries.QTrie.InsertWord | library/qdawg.cpp:109-117 | the heap trie stands for the tree with the word inserted below this node |
| Tries.QTrie.DistributeKeys | library/qdawg.cpp:139-160 | every node below gets the key of its tree and is filed once under it |
| Tries.TrieClubDirectory.Prepend | library/qdawg.cpp:157-159 | the directory lists exactly the filed nodes, each under its key |
| Tries.QTrie.Equal | library/qdawg.cpp:194-205 | in-place comparison answers whether two nodes stand for the same tree, also while links are being merged |
| Tries.QTrie.ClubLeader | library/qdawg.cpp:162-176 | rewriting links changes no node's tree; afterwards all links below lead to leaders, and the result is the leader of this node's tree |
| Tries.QTrie.FindInClub | library/qdawg.cpp:169-175 | the first node of the club that stands for the same tree |
| Tries.LeaderUnique | library/qdawg.cpp:170-174 | leaders of the same tree are the same node |
| Tries.TrieIsLaid | library/qdawg.cpp:263-267 | a finished trie has one node per path, its links follow the paths, and each node stands for its subtree |
| Tries.QTrie.CollectKeys | library/qdawg.cpp:178-185 | clears keys and counts the children of every distinct subtree once, shared nodes included |
| Packing.PlacedClosed | library/qdawg.cpp:374-401 | the subtrees of a placed node are placed too |
| Packing.BlocksKept | library/qdawg.cpp:381-398 | writing into one block leaves the other blocks as they are |
| Packing.QDawgPrivate.GenerateArray | library/qdawg.cpp:365-372 | for graphs of any size the packed blocks are complete, disjoint, one per distinct subtree with children, placed where Places says, and fill exactly the counted array, the root's first |
| Packing.QDawgPrivate.AppendToArray | library/qdawg.cpp:374-401 | places the subtree's missing blocks behind the used part as Place says, touches nothing before it, and returns the block's position, 0 for a leaf; no warning while the array has at most 131072 nodes |
| Packing.QDawgPrivate.FillBlock | library/qdawg.cpp:383-397 | while a block is open its entries are written one by one, though children are placed in between |
| Packing.QDawgPrivate.SetJump | library/qdawg.cpp:390-395 | a position becomes the jump of the bit field, right exactly if it fits, a leaf's stays 0; a warning exactly if Warns |
| Packing.JumpExact | library/qdawg.cpp:388-395 | truncating position and difference one after the other stores the difference exactly if it is in range, not 0, and the position is not a multiple of 2^18 |
| Packing.WarningMisleads | library/qdawg.cpp:391-393 | no warning below 131072; from there to 262144 the warning is printed, of jumps not further back than 131072, exactly for those stored right |
| Packing.SmallLinked | library/qdawg.cpp:374-401 | every jump of a graph of at most 131072 packed nodes fits |
| Packing.QDawgPrivate.CloseBlock | library/qdawg.cpp:398-400 | marking the last entry completes the block |
| Packing.QDawgPrivate.Contains | library/qdawg.cpp:333-346 | if all jumps fit, the array walk finds what Finds says of the tree: never a word with a letter over 12 bits, always a narrow word the tree accepts, and exactly the accepted ones if the tree is narrow |
| Packing.QDawgPrivate.CountWords | library/qdawg.cpp:319-331 | the array walk counts the words below a block although blocks are shared |
| Packing.QDawgPrivate.AppendAllWords | library/qdawg.cpp:348-360 | if all jumps fit, the array walk appends the words of the tree in order, each as it reads in 12-bit letters |
| StoredWords.FindsBounds | library/qdawg.cpp:333-346 | what is found of a tree holds all its narrow words and only readings of its words |
| StoredWords.WalkKeeps | library/qdawg.cpp:338-343 | of the children that read as a narrow letter the first is that letter's own, so a narrow word is not lost though the walk tries only one |
| StoredWords.SingleWord | library/qdawg.cpp:338-343 | in the graph of a single word exactly its reading is found |
| StoredWords.WideExample | library/qdawg.cpp:338-343 | an input for both ways to be wrong: the one word of the list is not found and one not in the list is |
| StoredWords.AnswersRightIff | library/qdawg.cpp:585-588 | every word asked for is answered right exactly if all words of the list are narrow |
| StoredWords.ListedReadings | library/qdawg.cpp:348-360 | the listing holds the readings of the list's words, and is the list's words exactly if all are narrow |
| WordLists.CountIsLength | library/qdawg.cpp:319-331 | the count is the length of the listing |
| WordLists.Listed | library/qdawg.cpp:348-360 | a word is listed exactly if it is accepted and not empty |
| WordLists.ListedInOrder | library/qdawg.cpp:348-360 | the listing is strictly increasing, so without repetition |
| WordLists.AllWordsOfList | library/qdawg.cpp:506-511 | listing the graph of a list gives its non-empty words |
| Dawgs.BuildTrie | library/qdawg.cpp:493-496 | the trie built from a list stands for the tree of the list |
| Dawgs.MergeTrie | library/qdawg.cpp:265-268 | the root is its own leader and the leaders form a closed graph with one node per tree |
| Dawgs.RootLeads | library/qdawg.cpp:267-268 | only the root stands for the whole tree |
| Dawgs.MergedIsMinimal | library/qdawg.cpp:162-176 | two nodes of the merged graph with the same suffixes are the same node |
| Dawgs.PackedSizeZero | library/qdawg.cpp:178-185 | no array nodes are needed exactly for a tree without children |
| Dawgs.QDawg.CreateFromWords | library/qdawg.cpp:488-501 | a packed graph of the list whatever its size, none for an empty list; its array is empty exactly if no word has a letter; a warning only beyond 131072 nodes |
| Dawgs.SmallListsFit | library/qdawg.cpp:488-501 | a list of at most 131072 packed nodes has no jump that does not fit |
| Dawgs.QDawg.AddWords | library/global.cpp:311-315 | if all jumps fit, rebuilding from the listed and the new words stores exactly the new words and the readings of the old ones, the union if the old graph was narrow |
| Dawgs.LookUp | library/qdawg.cpp:585-588 | from list to answer, if all jumps of the list's graph fit: a narrow word of the list is always found, only readings of its words are, and a list of narrow words is answered exactly |
| Dawgs.Listing | library/qdawg.cpp:568-571 | from list to listing, if all jumps of the list's graph fit: as many words as counted, the readings of the list's words in order; exactly its non-empty words if and only if all are narrow, and then strictly increasing |
| Calendar.DateOfDayNumber | library/datebookdb.cpp:168-187 | year, month and day of a day number are those it was made from |
| Calendar.DayNumberOfDate | library/datebookdb.cpp:141-143 | the date of a day number is valid and gives the number back |
| Calendar.YearStarts | library/datebookdb.cpp:54-58 | adding up month lengths gives the closed form for 1 January |
| Calendar.MonthStartsAt | library/datebookdb.cpp:242-256 | where every month of every year starts, in closed form, and so how long it is |
| Calendar.NewYear | library/datebookdb.cpp:54-58 | the closed form of a year's first day is its 1 January |
| Calendar.Anchor | library/datebookdb.cpp:54-58 | the day numbers are anchored: 1 January 1970 is day 719162, a Thursday |
| Calendar.PeriodMany | library/datebookdb.cpp:54-58 | month lengths, starts and weekdays repeat every 4800 months |
| Recurrence.GridMin | library/datebookdb.cpp:125-133 | the smaller of the two distances leads to the first day on or after from in either residue class |
| Recurrence.NextPeriodic | library/datebookdb.cpp:114-138 | the tail shared by weekly and daily events answers with that day, or with the day still ahead in the first week |
| Recurrence.NextDaily | library/datebookdb.cpp:112-138 | the least daily occurrence, or none only past the end date |
| Recurrence.WeeklyLeast | library/datebookdb.cpp:82-110 | the smaller of the two residues is the least masked weekday in a week of the right parity, the first week included |
| Recurrence.NextWeekly | library/datebookdb.cpp:81-138 | the least weekly occurrence, or none only past the end date; a day found is one of the weekdays whose bit, Monday 1 up to Sunday 64, is in the mask |
| Recurrence.MaskBits | library/backend/event.h:48-49 | which weekday each bit of a mask stands for |
| Recurrence.PatternIsSlot | library/datebookdb.cpp:168-170 | a day is the wanted weekday of the wanted week of the month exactly if it is the computed day |
| Recurrence.MonthlyLeast | library/datebookdb.cpp:171-217 | a month reached with nothing missed before it gives the least occurrence |
| Recurrence.MonthlyEnded | library/datebookdb.cpp:179-182 | giving up in the loop when the month starts past the end loses nothing |
| Recurrence.HorizonFits | library/datebookdb.cpp:171-187 | at or after every month there is an aligned one that has the day, so the loops end |
| Recurrence.FirstMonth | library/datebookdb.cpp:147-165 | the first month on or after that of from a multiple of the frequency away from the start's |
| Recurrence.SeekWeekday | library/datebookdb.cpp:171-187 | the search loop stops at the next aligned month long enough, or past the end date |
| Recurrence.NextMonthlyDay | library/datebookdb.cpp:139-218 | the least occurrence on an nth weekday, or none only past the end date |
| Recurrence.NextMonthlyDate | library/datebookdb.cpp:219-284 | the least occurrence on a day of the month, or none only past the end date |
| Recurrence.StepIsCommon | library/datebookdb.cpp:291-300 | among years a multiple of 4 apart, multiples of the frequency are those of the step, so the step loses no leap year |
| Recurrence.PatternIsAnniversary | library/datebookdb.cpp:302-309 | a day is a yearly occurrence exactly if it is the valid anniversary of a year of the step |
| Recurrence.LosesDayIff | library/datebookdb.cpp:308-327 | exactly when two candidate years in a row lack 29 February after one that has it |
| Recurrence.SomeYear | library/datebookdb.cpp:308-312 | where the first candidate year already lacks the day, one of the two tried next has it |
| Recurrence.NextYearly | library/datebookdb.cpp:285-332 | the least anniversary, except that the answer is a null date exactly for SkipsTwice |
| Recurrence.NullExample | library/datebookdb.cpp:323-332 | inputs with a null answer although a later anniversary exists |
| Recurrence.NextOccuranceNoExceptions | library/datebookdb.cpp:60-336 | for every event and day: the least occurrence, none only past the end date, null exactly for SkipsTwice |
| Recurrence.NextOccurance | library/datebookdb.cpp:338-357 | the least occurrence without an exception; a null date exactly if only excepted days come before a day whose search is null |
| Recurrence.SkipReached | library/datebookdb.cpp:323-332 | between a day and a later day whose search is null there is an occurrence, unless the search from the first is null as well |
| Recurrence.ClipKeeps | library/datebookdb.cpp:434-442 | the false end date changes no kept day, and the null searches up to it stay null |
| Recurrence.RepeatsInWindow | library/datebookdb.cpp:434-454 | a null date is met exactly if the search from a day of the window is null, and then the days before it have been shown; otherwise every kept occurrence of the window once, in increasing order, none lost by the clipped end date |
| Journals.FileReadsBack | library/datebookdb.cpp:1006-1035 | the saved lists are read back as they were, in order |
| Journals.EditExact | library/datebookdb.cpp:631-672 | an edit's journal line replays to the edited lists exactly if EditReplays holds |
| Journals.DistinctRepeatsReplay | library/datebookdb.cpp:637-657 | with unique creation times and unique uids, several of uid 0 allowed, every edit of a repeating event that is there replays |
| Journals.TwinExample | library/datebookdb.cpp:658-662 | two plain events alike but for their uid, where the edit and its replay remove different ones |
| Journals.RunReplays | library/datebookdb.cpp:940-951 | replaying the journal over the lists saved before a run gives the lists the run left, at every point of the run, exactly if every edit met EditReplays |
| Journals.InterruptedSave | library/datebookdb.cpp:1043-1053 | after a save cut off before the journal is removed, with one operation in it, the next start reads the right lists exactly if the operation is harmless; an added event never is |
| Journals.CutOffGrows | library/datebookdb.cpp:1043-1053 | a save cut off with a journal of any length that adds more events than it removes is read back wrong |
| Journals.InterruptedRun | library/datebookdb.cpp:1043-1053 | so is one cut off after a run with more additions than removals |
| Journals.HarmlessExact | library/datebookdb.cpp:930-953 | an operation's line, replayed over the lists the operation left, changes nothing exactly if it is harmless: a removal without a further match, an edit of nothing, or one whose event fills the end of its list |
| Journals.CutOffReplays | library/datebookdb.cpp:1043-1053 | after a cut-off save the next start replays the whole journal over the lists already saved |
| Journals.ReplayFiles | library/datebookdb.cpp:910-953 | whatever is read, every event ends up in the list of its kind |
| Journals.DateBookDB.AddEvent | library/datebookdb.cpp:613-629 | appends to the right list and stays in step with the files |
| Journals.DateBookDB.RemoveEvent | library/datebookdb.cpp:674-693 | removes the first match, repeating events by creation time, and stays in step |
| Journals.DateBookDB.EditEvent | library/datebookdb.cpp:631-672 | replaces the event, moving it between the lists if needed; in step afterwards exactly if EditReplays held |
| Journals.DateBookDB.ReadEntry | library/datebookdb.cpp:930-953 | one line of file or journal is applied to the lists |
| Journals.DateBookDB.LoadFile | library/datebookdb.cpp:696-959 | a file's lines are applied in order |
| Journals.DateBookDB.Init | library/datebookdb.cpp:961-985 | the lists of file and journal, clean and in step; the file is written exactly if there was a journal |
| Journals.DateBookDB.Save | library/datebookdb.cpp:987-1056 | writes both lists and drops the journal, unless nothing changed |
| Journals.DateBookDB.Reload | library/datebookdb.cpp:1058-1070 | forgets the lists and reads those of file and journal, saved and in step; if they were in step nothing has changed |
| Journals.DateBookDB.RemoveRepeat | library/datebookdb.cpp:1072-1084 | removes the first repeating event of a creation time |
| Journals.DateBookDB.OrigRepeat | library/datebookdb.cpp:1086-1097 | finds the first repeating event of a creation time |
| Splitters.RowMeans | libqtaux/qsplitter.cpp:501-513 | a row is what the geometry says: every visible item stands where the visible ones before it end, widgets within their limits and handles of their size, and the last ends at the right edge |
| Splitters.AfterRow | libqtaux/qsplitter.cpp:566-596 | pushing the left edge to any feasible position keeps the tiling up to the right edge and all size limits |
| Splitters.BeforeRow | libqtaux/qsplitter.cpp:531-558 | the same for the right edge and the left end |
| Splitters.PushStops | libqtaux/qsplitter.cpp:574-576 | once an item stays where it was, so does all to its right |
| Splitters.PullStops | libqtaux/qsplitter.cpp:555-556 | once an item keeps its left edge, all to its left stays |
| Splitters.LayoutInRange | libqtaux/qsplitter.cpp:605-646 | the handle of every layout of the items is within the range |
| Splitters.MovedIsLayout | libqtaux/qsplitter.cpp:605-646 | every position in the range is the handle's in a layout, the one a drag makes |
| Splitters.ClampIsClosest | libqtaux/qsplitter.cpp:654-662 | the adjusted position is reachable, and no reachable one is closer |
| Splitters.QSplitter.MoveAfter | libqtaux/qsplitter.cpp:566-596 | rewrites the items from an id on, the same whatever the drawing order |
| Splitters.QSplitter.MoveBefore | libqtaux/qsplitter.cpp:531-558 | rewrites the items up to an id, the same whatever the drawing order |
| Splitters.QSplitter.GetRange | libqtaux/qsplitter.cpp:605-646 | the two summing loops give the range |
| Splitters.QSplitter.MoveSplitter | libqtaux/qsplitter.cpp:501-513 | from a tiling, a tiling of the same items in the same rectangle within their limits, the handle as close as possible to where it was dragged |
| Splitters.QSplitter.StoreSizes | libqtaux/qsplitter.cpp:981-989 | every widget's stored size becomes its size, handles keep theirs |
| Splitters.QSplitter.AddWidget | libqtaux/qsplitter.cpp:334-366 | widgets and handles still alternate; appended handles get the right id |
| Splitters.AddedIds | libqtaux/qsplitter.cpp:343-348 | a handle put in front gets the right id only onto at most one widget |
| Splitters.QSplitter.ChildRemoved | libqtaux/qsplitter.cpp:389-412 | the widget goes with one handle beside it; alternation and ids are kept |
| Splitters.QSplitter.MoveToFirst | libqtaux/qsplitter.cpp:845-867 | the widget comes first with a handle behind it; alternation and ids are kept |
| Splitters.QSplitter.MoveToLast | libqtaux/qsplitter.cpp:874-896 | the widget comes last behind a handle; alternation and ids are kept |
| Splitters.QSplitter.RecalcId | libqtaux/qsplitter.cpp:899-907 | every handle gets its index |
| Splitters.QSplitter.RecalcVisibility | libqtaux/qsplitter.cpp:722-739 | visible widgets and handles alternate; a handle shows exactly if the widget after it does and one before it does |
| Splitters.OneHandleFewer | libqtaux/qsplitter.cpp:722-739 | an alternating list has one handle fewer than widgets |
| Signatures.ParseBuild | libdbus-qt2/qdbusmarshall.cpp:74-234 | whatever follows the signature of any prototype, basic ones included, the first prototype parsed is the one Read gives, and what follows is kept or dropped as stated |
| Signatures.SignatureRoundTrip | libdbus-qt2/qdbusdata.cpp:933-1020 | a signature followed by nothing or a closing bracket gives one prototype and leaves the rest; it is the same prototype, and has the same signature, exactly if it is formed |
| Signatures.ReadExact | libdbus-qt2/qdbusmarshall.cpp:74-234 | a prototype comes back exactly if it is formed; of any other the signature that comes back is shorter |
| Signatures.StructLost | libdbus-qt2/qdbusdata.cpp:615-630 | a struct comes back invalid exactly if a member the parser gets to does, as every basic member does |
| Signatures.SignaturesDiffer | libdbus-qt2/qdbusdata.cpp:933-1020 | different prototypes have different signatures, basic ones included |
| Signatures.BuildUnambiguous | libdbus-qt2/qdbusdata.cpp:933-1020 | no signature is the beginning of another prototype's |
| Signatures.TwoInARow | libdbus-qt2/qdbusmarshall.cpp:211-226 | two signatures in a row come back as their two prototypes exactly if both are formed and the first is a struct or an array of basic elements |
| Signatures.GIsRead | libdbus-qt2/qdbusmarshall.cpp:64-65 | a signature with signature codes is read as if they were strings; it is restored exactly if it has none and its prototype is formed |
| Signatures.ParseStrings | libdbus-qt2/qdbusmarshall.cpp:64-65 | for every text, replacing signature codes by string codes changes no prototype parsed, and of the rest only the replaced codes |
| Signatures.ParseSignature | libdbus-qt2/qdbusmarshall.cpp:74-234 | the consuming loop and its recursion compute the parse, and end |
| Signatures.KeyExact | libdbus-qt2/qdbusmarshall.cpp:94-205 | a map is read with every basic key but boolean, double and variant, for basic and container values; with those it is dropped and what follows is read in its place |
| Signatures.KeyAlone | libdbus-qt2/qdbusmarshall.cpp:94-205 | so that of a map alone with one of those keys only the invalid prototype is left |
| Signatures.BuildDBusSignature | libdbus-qt2/qdbusdata.cpp:933-1020 | the printer's switch and member loop compute the signature, of basic prototypes too |
| Configs.Config.Parse | library/config.cpp:806-856 | one line's effect on groups, current group and translation settings; a refused line changes nothing |
| Configs.Config.Read | library/config.cpp:243-260 | lines are parsed in turn until one is refused, which unsets the current group |
| Configs.Config.Write | library/config.cpp:698-705 | whatever the order of names and keys, the groups are read back as they were, empty ones included, exactly if they are printable |
| Configs.ReadPrintable | library/config.cpp:806-856 | whatever text is read, the groups can be printed and read back |
| Configs.EntryLineParses | library/config.cpp:820-852 | a printed entry line sets its key to its value in the current group, empty keys and values included |
| Configs.SpacesAre | library/config.cpp:806-822 | white space is the space and the characters 9 to 13 |
| Configs.EntryLineSettings | library/config.cpp:827-847 | what an entry line does to the settings of translation files: file, context, and whether the file holds several languages |
| Configs.ReadSettled | library/config.cpp:827-847 | after reading any text the file and the context are those of the group of translation files, and no key names a language unless the file is known to hold several |
| Configs.PrintedLine | library/config.cpp:253-259 | a line appended to a text is parsed next, whatever follows |
| ListCodec.WriteEntry | library/config.cpp:957-971 | the loop writes every element escaped and ended |
| ListCodec.ReadListEntry | library/config.cpp:979-1005 | the loop computes the reader's state over the value |
| ListCodec.ListRoundTrip | library/config.cpp:979-1005 | reading gives back every list of strings of any content, only an empty first string becoming null |
| ListCodec.SameCharacters | library/config.cpp:985-993 | so with null and empty counted alike it is the same list, and it is identical exactly if it does not start with an empty string |
| ListCodec.UnendedTail | library/config.cpp:999-1003 | characters after the last element, which no written list has, are one more element, ended by the end of the value |
| ListCodec.PlainValue | library/config.cpp:999-1003 | so a value without "^" is read as the list of itself |
| ListEntries.ListPrintable | library/config.cpp:957-971 | the entry of a list can be printed and read back exactly if no string holds a newline and the first does not start with white space |
| ListEntries.ListInGroups | library/config.cpp:698-705 | a list put into printable groups keeps them printable exactly if it is such a list |
| ListEntries.ListThroughFile | library/config.cpp:979-1005 | written with its file and read back, the groups are the same exactly for such lists, and the list is the one written, an empty first string becoming null |
| ConfigCaches.TotalWithout | library/config.cpp:135-143 | the summed size does not depend on the order of summing |
| ConfigCaches.ConfigCache.Remove | library/config.cpp:135-143 | however far the counter is ahead of what is cached, it stays so far ahead of what is left once the file is gone |
| ConfigCaches.ConfigCache.Insert | library/config.cpp:167-193 | the counter is the summed size also when an entry is replaced; files of 4096 bytes and more are not cached; a counter of 8192 and more starts the timer |
| ConfigCaches.ConfigCache.Find | library/config.cpp:195-216 | a hit exactly if the file is unchanged, and then the entry becomes recently used |
| ConfigCaches.ConfigCache.RemoveLru | library/config.cpp:145-157 | never on an empty cache; drops an entry whose second and microsecond of use are not after any other's |
| ConfigCaches.ConfigCache.TimerEvent | library/config.cpp:159-165 | ends with the counter at most 8192, and evicts nothing if it was; what stays was used no earlier, by second and microsecond, than what went, and no more went than had to |
| AlarmServers.AlarmServer.SetNearestTimerEvent | library/alarmserver.cpp:78-91 | the cached alarm is none for an empty list and otherwise the earliest, of several in the same second the one added first; a timer is started for it now |
| AlarmServers.AlarmServer.ResetTimer | library/alarmserver.cpp:208-270 | the delay in milliseconds is that of the wait and half a second more, up to a wait of 2147000 seconds and no longer, and fits a signed 32-bit int; the device is to wake at the alarm |
| AlarmServers.TimerRings | library/alarmserver.cpp:208-270 | such a timer never goes off before its alarm unless the wait was too long for it, and never more than half a second after one still to come |
| AlarmServers.AlarmServer.AddAlarm | library/alarmserver.cpp:388-436 | appends unless it is there already, and saves exactly then; the cached alarm stays the earliest; a timer is started now, for the new alarm and instead of any other, exactly if it becomes the cached one |
| AlarmServers.AlarmServer.DeleteAlarm | library/alarmserver.cpp:448-484 | leaves what Spared says, and saves exactly if something went; if an alarm is left the latest timer is started now for the earliest, and the wake-up time is right |
| AlarmServers.SparedMembers | library/alarmserver.cpp:459-474 | deleting adds nothing, keeps every alarm that does not match, and no alarm comes twice |
| AlarmServers.MatchesMeaning | library/alarmserver.cpp:461-465 | a full pattern matches only the alarm it spells out, and an open part is as good as asking for what the alarm has |
| AlarmServers.DeletesAllIff | library/alarmserver.cpp:459-474 | every matching alarm is deleted exactly if no two are next to each other |
| AlarmServers.AlarmServer.TimerEvent | library/alarmserver.cpp:272-296 | sends the earliest alarm, of several in one second the one added first, exactly if its time has come, and saves exactly then; without a sending all are still to come; one timer is started for the earliest that stays, none if there is none |

## Left out

- Word graph files, memory mapping, byte order and the reading of words from a device; the deletion of trie nodes after packing.
- Dawgs.LookUp: requires that all jumps of the graph fit; where one does not, the entry does not lead to its child's block, and what the array walk then meets is not modelled. The same holds for Listing, AddWords, and the readers of the packed array. The number of nodes is an unbounded int.
- Dawgs.QDawg.Contains: requires a non-empty array; on the array of a list of empty words the program reads past its end.
- Tries.QTrie.DistributeKeys: the depth and descendant counters are unbounded; only the key wraps.
- Tries.SortedSplice: the heap sort and the sorted flag are replaced by a sort by insertion.
- QDate's range of years and the time of day; an occurrence has the time of its event. Durations, end times, and the copying of events into a window's list.
- Recurrence.RepeatsInWindow: what the program lists after a null date depends on the toolkit's arithmetic with null dates. One event at a time, before the final sort; the non-repeating events of a window and effective (multi-day) events are not modelled.
- Recurrence.NextMonthlyDay: counters are unbounded ints, so that months and years never overflow.
- Journals.DateBookDB.LoadFile: the text form of events and the repair of an empty weekday mask while reading; an event read is the event written. Failing writes, and alarms set or removed with an event.
- Journals.InterruptedSave: one operation since the save before; for longer journals CutOffReplays says what the next start reads and CutOffGrows when it is wrong for sure, but not each case in which it is right.
- Journals.DateBookDB.LoadFile: requires that no journal index points past its list, which the program would follow.
- Splitters.QSplitter.MoveSplitter: only the axis of the splitter; the layout computed on resize (qGeomCalc is not part of this model), so geometry after adding or removing children is not described.
- Handle ids after setResizeMode with a new widget, which does not renumber; AddedIds says when that matters. Painting, rubber band, mouse handling, resize modes.
- Signatures.ParseSignature: the values of lists and maps, message iterators and the marshalling itself; the warning printed for an unsupported key type.
- Configs.Config.Write: what is read back of groups that are not printable (values with outer white space, say) is not described, only that it is not the same. File encoding, writing to a second file and renaming, looking for a default file.
- ListEntries.ListThroughFile: which list comes back when the groups do not.
- Configs.Config.Parse: translated entries are stored like others; looking up the language is left out. White space is that of ASCII.
- ConfigCaches.ConfigCache.Insert: the counter is exact modulo the width of an unsigned int, so as long as the cached sizes sum to less than 4 GB it is their sum.
- AlarmServers.AlarmServer.AddAlarm: the client side, which sends the request to the server; the branch of the timer handler without a cached alarm, which cannot be reached as a timer runs only while there is one.
- Encrypted entries, conversion of numbers and booleans, dialogs, styles, MIME widgets, plugins, processes and networking.
