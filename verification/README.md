# Models of shark and of the erasure-code experiments

This project models, in Dafny, the algorithms of two parts of the repository and proves what
they are for: `debug-tools/shark`, a stress tester that runs one journal of file operations on two
mounts, and the Intel erasure-code experiments under `mytest/intel-ec-code`.

**Red-black table** (`Rb*.dfy`). Nodes are objects on the heap with the links, colour and data of
`struct rb_node`. `RbShape` and `RbRules` give the value view: a tree of node references, the path above a
link, and what one rewriting step keeps. `RbSteps`, `RbInsert`, `RbSplice` and `RbDelete` are the loops of
`rb_probe` and `rb_delete` over the arrays `pa` and `da`; `RbTable` is the table, `RbTraverser` the cursor
with its stack and generation number, `RbHistory` what holds over whole runs, `RbCopy` and `RbDestroy` the two
walks over a whole table. The mirrored halves of the C text are one body over a direction `d`. The arrays have
exactly `RB_MAX_HEIGHT` slots, so every push proves that it fits; `pa[0]` is `head`, the root link seen as a node.
The comparison is that of the program, by 64-bit index.

**Erasure code** (`Gf256`, `Matrix`, `DecodeMatrix`, `Stripe*`, `Erasures`, `ErasureSearch`, `Combination`).
GF(2^8) is built on bytes of eight bits with the polynomial 0x11d; its ring laws are proved, the products that fix
all others by them, and that every non-zero byte has an inverse. The ISA-L functions are not part of this model: the encode matrix is any matrix whose first k rows are the
identity, and the outcome of `gf_invert_matrix` is a parameter, which is a left inverse whenever inversion
succeeds.

**Journal** (`Journal*.dfy`). The text that the generator writes, character by character, and the two readers
with their own offsets. The two switches over the operations are tables; `sprintf`, `strtok_r`, `strchr`, `atoi` and
`getline` are functions on strings. `JournalDeclared` states which operations there are and which members they carry,
as `shark_ops.h` declares them, and that none of it is lost.

**Worker pool** (`WorkerPool`, `ThreadPool`, `PoolSystem`, `PoolJobs`, `PoolProgress`). Any number of threads with a program counter each; every
section under a lock is one step. A pool at one moment is a value, each step of a thread a function on such values
that the method of the step is proved against, and a run is any sequence of steps of the generator and of the
threads of both pools. `PoolJobs` says which written list becomes which job, `PoolProgress` when all of them get done.

**Node table, lists, layouts** (`FileNodes`, `Lists`, `Layouts`). Idle and busy nodes with their use counts,
the circular lists of `list.h`, and the weighted random tables over exact ratios.

`Arith` and `Wrappers` hold what several of them share. `dafny verify dfyconfig.toml` checks everything.

Where code and comment differ, the code is followed. Three results say that the code does less than one would
expect. The rename of a directory would come back from the journal as an access check (`JournalOps.DirRenameChanges`);
no run writes one, since the generator replaces it by an unknown operation (shark_ops.c:713-716).
`JournalOps.OpUnchanged` says exactly which operations come back equal. The decoder keeps the numbers of the survivors
in bytes: a loss of data fragments is repaired, for every matrix and all data, exactly if the first k survivors are
numbered below 256 (`StripeCut.RepairsExactly`). And `ec_method_combination` gives the number
of erasure patterns, for m and k above 0, exactly if k <= m and (m <= 20, or k = m, or m = 60 and k = 59); in all
other cases it gives too little (`Combination.CountsExactly`) or divides by zero, which it does exactly if k > m, or
k < m and (m >= 67, or m = 66 and k <= 64) (`Combination.StopsExactly`).

## Model

| member | source | states |
|---|---|---|
| RbTable.Table.Probe | debug-tools/shark/rb.c:91-203 | the table stays ordered and balanced with a black root; a duplicate's node is handed out and nothing changes; else exactly one fresh node with the item joins, and every other node stays; without memory nothing changes |
| RbTable.Table.Delete | debug-tools/shark/rb.c:235-432 | the stored item comes back and exactly its entry and node leave, order, balance and count kept; an absent item leaves the whole table unchanged |
| RbTable.Table.Find | debug-tools/shark/rb.c:65-86 | looking up agrees with the finite map of the contents |
| RbTable.Table.Insert | debug-tools/shark/rb.c:208-214 | only a different duplicate is returned, and then nothing changes; else the map gains the item |
| RbTable.Table.Search | debug-tools/shark/rb.c:98-115 | the recorded stack spells out the path to the item's node or to the empty link where it belongs, with room left for the extra entry of a deletion |
| RbInsert.FixUp | debug-tools/shark/rb.c:128-199 | from one red node below a red one, the loop restores the balance, keeping the entries in order |
| RbInsert.Rebalance | debug-tools/shark/rb.c:139-162 | the rotations for a black uncle end with a balanced tree and the same entries |
| RbInsert.Recolor | debug-tools/shark/rb.c:130-138 | with a red uncle the one red conflict moves up two levels and nothing else is broken |
| RbSplice.Splice | debug-tools/shark/rb.c:264-309 | the node leaves, whichever of the three cases applies; the stack then leads to the link below which a black node may be missing |
| RbSplice.FindSuccessor | debug-tools/shark/rb.c:282-295 | the walk stops at the leftmost node of the right subtree with the way to it recorded |
| RbRules.SpliceSuccessor | debug-tools/shark/rb.c:266-309 | replacing a node by its successor keeps links, search order and all other nodes |
| RbRules.Rotate | debug-tools/shark/rb.c:154-160 | a rotation on the heap is the rotation of the tree and leaves all other nodes alone |
| RbRules.RotateFlat | debug-tools/shark/rb.c:154-160 | a rotation keeps the order of the entries |
| RbDelete.FixShort | debug-tools/shark/rb.c:311-424 | a tree one black node short somewhere is balanced again, in all cases, with the same entries |
| RbDelete.Turn | debug-tools/shark/rb.c:324-422 | one turn of the loop makes the tree whole or moves the shortage one level up |
| RbHeight.HeightBound | debug-tools/shark/rb.h:56-59 | a tree of n items is at most 2 log2(n + 1) deep |
| RbHeight.PathBound | debug-tools/shark/rb.h:56-59 | for every count that fits 64 bits no path is longer than 126 nodes |
| RbContents.MapOfInsert | debug-tools/shark/rb.c:117-202 | an entry put anywhere among entries with other keys adds exactly its key to the map |
| RbContents.MapOfRemove | debug-tools/shark/rb.c:427-431 | an entry taken out removes exactly its key |
| RbTraverser.Traverser.Refresh | debug-tools/shark/rb.c:436-460 | after any changes that keep the current node, the stack is again the list of its ancestors |
| RbTraverser.Traverser.Step | debug-tools/shark/rb.c:617-721 | from a node, the node of the next or previous entry of the table as it is now becomes current; from the null item the first or last; past the end the null item |
| RbTraverser.Traverser.Extreme | debug-tools/shark/rb.c:473-525 | whatever the cursor was, it now stands on the first or last entry of the given table |
| RbTraverser.Traverser.Find | debug-tools/shark/rb.c:527-562 | in the given table the matching item, if there is one, becomes current; else the null item |
| RbTraverser.Traverser.Insert | debug-tools/shark/rb.c:564-593 | the new item of the given table, or its duplicate, becomes current; the cursor is valid although its stack is not |
| RbTraverser.Traverser.CopyFrom | debug-tools/shark/rb.c:595-615 | the copy stands where the original stands |
| RbHistory.FindAfterRun | debug-tools/shark/rb.c:65-432 | after any run of insertions and deletions, lookup agrees with the finite map they amount to |
| RbHistory.Run | debug-tools/shark/rb.c:91-460 | a cursor on a node that no operation deletes stays valid, with its item, over any run |
| RbHistory.StepAfterRun | debug-tools/shark/rb.c:617-721 | after such a run the step gives the least greater, or greatest smaller, item of the table as it then is |
| RbHistory.NextIsNeighbour | debug-tools/shark/rb.c:617-721 | neighbours in the sorted entries are neighbours among the keys of the map |
| RbHistory.ThereAndBack | debug-tools/shark/rb.c:617-721 | away from the ends a step gives the neighbouring item, and the step back the item and node of before |
| RbHistory.ListAll | debug-tools/shark/rb.c:473-668 | first and then next list all items in order, each once |
| RbDestroy.Drain | debug-tools/shark/rb.c:871-884 | the loop ends and hands over the entries in order, though it rotates the tree meanwhile; its turns are those of Touched, in which no node occurs after it has been given back |
| RbDestroy.TouchedSafe | debug-tools/shark/rb.c:871-884 | going through a tree of distinct nodes that way, no node is touched after it has been given back |
| RbDestroy.GivenInOrder | debug-tools/shark/rb.c:871-884 | and the nodes are given back in the order of the entries, each once |
| RbDestroy.Destroy | debug-tools/shark/rb.c:862-887 | the callback sees every item once in ascending order, and every node is freed exactly once |
| RbCopy.Copy | debug-tools/shark/rb.c:760-860 | the copy has the shape, the colours and the mapped items of the original, in fresh nodes; the original is unchanged; with keys kept the copy is a valid table |
| RbCopy.CopyNodes | debug-tools/shark/rb.c:789-859 | the loop over the stack of pairs ends and builds the copied tree, the stack staying within its 258 slots |
| RbCopy.Climb | debug-tools/shark/rb.c:853-857 | nodes whose right side is done are complete without having been on the stack |
| Gf256.TwoTimes | mytest/intel-ec-code/gf_vect_dot_prod/test.c:482-489 | 0x02 times 2^i is 2^(i+1), and 0x02 times 0x80 is 0x1d: with the ring laws this fixes every product behind the dot products |
| Gf256.HasInverse | mytest/intel-ec-code/ec_encode_data/decode_list.c:200-210 | every non-zero byte has an inverse for gf_mul, so the bytes are a field |
| DecodeMatrix.CollectRows | mytest/intel-ec-code/ec_encode_data/decode_list.c:151-160 | the first k surviving rows, in increasing order, and their numbers |
| DecodeMatrix.GenDecodeMatrix | mytest/intel-ec-code/ec_encode_data/decode_list.c:122-218 | every row of the decode matrix, times the surviving rows, is the encode-matrix row of an erased fragment, data or parity |
| DecodeMatrix.ParityRow | mytest/intel-ec-code/ec_encode_data/decode_list.c:200-210 | the entries computed column by column are the encode-matrix row times the inverse |
| DecodeMatrix.DecodesErased | mytest/intel-ec-code/ec_encode_data/decode_list.c:194-210 | such a row, applied to what survives of any data, gives the erased fragment |
| Matrix.RowThroughInverse | mytest/intel-ec-code/ec_encode_data/decode_list.c:200-210 | any row carried through the inverse and back is unchanged, by associativity of the matrix product |
| Matrix.InverseDecodes | mytest/intel-ec-code/gf_vect_dot_prod/test.c:636-643 | an inverse row times the surviving fragments is the data fragment |
| DecodeMatrix.DataFirst | mytest/intel-ec-code/ec_encode_data/decode_list.c:194-201 | the first nsrcerrs entries of the error list are exactly the data fragments |
| StripeCodec.EncodeData | mytest/intel-ec-code/gf_vect_dot_prod/test.c:452-463 | a data fragment is every k-th chunk of the input, an incomplete last stripe included |
| StripeCodec.EncodeParity | mytest/intel-ec-code/gf_vect_dot_prod/test.c:473-497 | a parity fragment is one dot product for each whole stripe; the loop that steps its index back ends and skips no chunk |
| StripeCode.CopiedAt | mytest/intel-ec-code/gf_vect_dot_prod/test.c:452-463 | chunk q of data fragment idx is chunk q * k + idx of the input, and it is there just if the input reaches so far |
| StripeCode.FragmentByte | mytest/intel-ec-code/gf_vect_dot_prod/test.c:473-497 | every byte of a parity fragment is the encode-matrix row times the bytes at that place of the k chunks of its stripe |
| StripeCode.FragmentAt | mytest/intel-ec-code/gf_vect_dot_prod/test.c:473-497 | chunk q of a parity fragment is there just if stripe q is whole, and is what that stripe gives |
| StripeCode.WholeChunks | mytest/intel-ec-code/gf_vect_dot_prod/test.c:452-497 | fragments of both kinds consist of whole chunks, so the places above are all |
| StripeCode.WholeStripes | mytest/intel-ec-code/gf_vect_dot_prod/test.c:452-497 | the data that decoding gives back can be of any number of stripes |
| StripeCodec.Encode | mytest/intel-ec-code/gf_vect_dot_prod/test.c:432-504 | the fragment of every index, nothing for an index without row, and the error for negative arguments |
| StripeDecode.DotGenDecodeMatrix | mytest/intel-ec-code/gf_vect_dot_prod/test.c:506-560 | row numbers of the first k survivors, each cut to a byte, the inverse with zero rows below it, or the error of the inversion |
| StripeDecode.Recover | mytest/intel-ec-code/gf_vect_dot_prod/test.c:636-643 | with a list that names the erased data fragments, and erased ones only, in any order, every erased data fragment's pointer is turned to its recovered chunk, while the survivors' pointers stay |
| StripeDecode.MoveOn | mytest/intel-ec-code/gf_vect_dot_prod/test.c:651-653 | every pointer moves on by one chunk for each time its number occurs |
| StripeDecode.Decode | mytest/intel-ec-code/gf_vect_dot_prod/test.c:562-669 | the original data, for every loss that leaves k fragments and for which inversion succeeds, if the first k survivors are numbered below 256 or no data are lost; else the error and an untouched output, or, with a number cut, a first stripe made of the fragments that the cut numbers lead to |
| StripeDecode.EncodeLoseDecode | mytest/intel-ec-code/gf_vect_dot_prod/test.c:760-798 | encode, lose, decode is the identity on whole stripes, whatever the lost fragments are replaced by, on the same condition |
| StripeCut.RepairsExactly | mytest/intel-ec-code/gf_vect_dot_prod/test.c:507-540 | a loss is repaired for every matrix, all data and all replaced fragments exactly if no data fragment is lost or the first k survivors are numbered below 256 |
| StripeCut.CutBreaks | mytest/intel-ec-code/gf_vect_dot_prod/test.c:507-540 | for every loss of data with a number cut there are a matrix and data for which the first stripe comes out wrong |
| StripeCode.DecodeStripe | mytest/intel-ec-code/gf_vect_dot_prod/test.c:632-643 | for one stripe, an inverse row over the surviving chunks is the erased chunk |
| StripeCode.AliveData | mytest/intel-ec-code/gf_vect_dot_prod/test.c:645-653 | a surviving data fragment is among the first k survivors, so its pointer advances |
| StripeCode.CopiedFragment | mytest/intel-ec-code/gf_vect_dot_prod/test.c:452-463 | copying chunks is what the identity rows of the code make |
| ErasureSearch.Search.Ftw | mytest/intel-ec-code/ec_encode_data/decode_list.c:354-401 | the recursion visits, in order, exactly the patterns that continue the current one to the wanted size, and restores flags, list and counters |
| ErasureSearch.Search.Visit | mytest/intel-ec-code/ec_encode_data/decode_list.c:370-378 | the pattern is cached just if it hits a data fragment, with a decode matrix that is right for it |
| ErasureSearch.DecodeMatrixNew | mytest/intel-ec-code/ec_encode_data/decode_list.c:264-344 | the element holds flags, list and counts as given, the numbers of the first k survivors, and for each erased fragment a row that makes its encode-matrix row from theirs |
| ErasureSearch.Search.EnumerateSize | mytest/intel-ec-code/ec_encode_data/decode_list.c:452-490 | all patterns of one size, in lexicographic order |
| ErasureSearch.Search.EnumerateAll | mytest/intel-ec-code/ec_encode_data/decode_list.c:440-493 | all patterns of 1 to m - k fragments, sizes ascending, each size in lexicographic order |
| ErasureSearch.Init | mytest/intel-ec-code/ec_encode_data/decode_list.c:403-499 | for all arguments: the return value, or the division by zero in the count; and the cache of the whole enumeration, every element with its right decode matrix |
| ErasureSearch.EntryFits | mytest/intel-ec-code/ec_encode_data/decode_list.c:309-320 | at every build the list is the increasing list of the set flags, nsrcerrs counts those below k, and k fragments survive: what the decode matrix needs |
| ErasureSearch.CacheHas | mytest/intel-ec-code/ec_encode_data/decode_list.c:329-330 | every visited pattern that hits a data fragment is in the cache |
| ErasureSearch.CacheOnly | mytest/intel-ec-code/ec_encode_data/decode_list.c:329-330 | and nothing else is |
| ErasureSearch.CacheDecodes | mytest/intel-ec-code/ec_encode_data/decode_list.c:194-210 | row q of a cached element, applied to what survives of any data, gives the erased fragment of number q |
| ErasureSearch.HitsData | mytest/intel-ec-code/ec_encode_data/decode_list.c:371 | a pattern hits a data fragment just if its first fragment is one |
| Erasures.EverySetOnce | mytest/intel-ec-code/ec_encode_data/decode_list.c:449-493 | every non-empty set of at most m - k fragments is visited at exactly one place |
| Erasures.UpToInOrder | mytest/intel-ec-code/ec_encode_data/decode_list.c:449-493 | of two patterns the one visited first is smaller, or of the same size and lexicographically before the other |
| Erasures.ChooseApart | mytest/intel-ec-code/ec_encode_data/decode_list.c:363-397 | no pattern is visited twice |
| Erasures.BinomialFact | mytest/intel-ec-code/ec_encode_data/decode_list.c:239-255 | the factorial quotient is Pascal's binomial coefficient, without remainder |
| Combination.Combine | mytest/intel-ec-code/ec_encode_data/decode_list.c:220-261 | for all int arguments: the error, the stop at a zero divisor, or the sum of quotients with every product and sum wrapped at 64 bits |
| Combination.DownIsFact | mytest/intel-ec-code/ec_encode_data/decode_list.c:239-241 | the descending product is the factorial modulo 2^64 |
| Combination.StopsExactly | mytest/intel-ec-code/ec_encode_data/decode_list.c:247-255 | it divides by zero exactly if k > m, or k < m and (m >= 67, or m = 66 and k <= 64) |
| Combination.QuotientAtMost | mytest/intel-ec-code/ec_encode_data/decode_list.c:255 | a wrapped quotient never exceeds the binomial coefficient, and equals it just if the product that it undoes did not wrap |
| Combination.CountsExactly | mytest/intel-ec-code/ec_encode_data/decode_list.c:220-261 | where it does not stop, the result is the number of patterns visited exactly if m <= 20, or k = m, or m = 60 and k = 59, and smaller otherwise |
| JournalText.AtoiPrint | debug-tools/shark/analyze.c:1366-1372 | a printed number is read back as its value cut to an int |
| JournalText.Decimal | debug-tools/shark/analyze.c:1536-1570 | numbers are printed in decimal: the numeral of n is that of n / 10 and then that of n % 10 |
| JournalOps.TablesAgree | debug-tools/shark/analyze.c:19-401 | every name written is read as the same operation with fields of the same kinds, but for the rename of a directory |
| JournalDeclared.WriterComplete | debug-tools/shark/analyze.c:19-401 | exactly the declared operations of a class, 9, 12, 13, 14 and 2 of them, get a line, each with the members that its argument struct declares, of a time the first timeval |
| JournalDeclared.ReaderComplete | debug-tools/shark/analyze.c:788-1291 | the reader takes the name of each declared operation for it, with these members; the rename of a directory is the one exception |
| JournalOps.CutStringOperation | debug-tools/shark/analyze.c:788-1291 | the strtok_r loop computes what the line is taken for, also where it would follow a null pointer |
| JournalOps.OpRoundTrip | debug-tools/shark/analyze.c:788-1291 | the line of any known operation with clean strings is read as that operation |
| JournalOps.OpUnchanged | debug-tools/shark/analyze.c:788-1291 | it comes back equal exactly if it is no rename of a directory, all its members are printed, and its 64-bit numbers fit an int |
| JournalOps.DirRenameChanges | debug-tools/shark/analyze.c:900-908 | the rename of a directory comes back as an access check |
| JournalOps.OpLineFree | debug-tools/shark/analyze.c:1396-1430 | no operation's line can be taken for a frame or spans two lines |
| JournalDeclared.NoneLost | debug-tools/shark/analyze.c:1383-1429 | of a list exactly the declared operations come back, in order, with number and all carried members, a 64-bit number cut to an int, a directory rename with the number of the access check |
| JournalDeclared.GroupComplete | debug-tools/shark/analyze.c:1293-1475 | a group of declared operations comes back list for list and operation for operation; need_open is 1 just for the two opened classes |
| JournalGroups.HeadRoundTrip | debug-tools/shark/analyze.c:1350-1381 | path, flags and class of a list are read back as they were written |
| JournalStream.ReadOps | debug-tools/shark/analyze.c:1383-1429 | the known operations of a list, renumbered from 0, and the offset behind its frame |
| JournalStream.ReadLists | debug-tools/shark/analyze.c:1349-1430 | the whole group, and the offset at exactly its end |
| JournalStream.Journal.WriteGroup | debug-tools/shark/analyze.c:1536-1574 | the text gains exactly the group's text; both readers keep their places |
| JournalStream.Journal.AnalyzeStringRead | debug-tools/shark/analyze.c:1293-1475 | a reader's next call gives its next group and moves only its own offset; at the end nothing changes |
| JournalStream.Run | debug-tools/shark/analyze.c:1293-1585 | in every order of writes and calls of both readers, each call gives exactly the next group of its reader if that has been written by then, else nothing, and each offset ends at the end of the last group read |
| JournalStream.GotInOrder | debug-tools/shark/analyze.c:1293-1585 | what a reader gets that way are the groups written, from the first on, in order, each once, however far the other reader is |
| WorkerPool.Manager.FileChooseInsert | debug-tools/shark/thread_manager.c:939-969 | the pair kept is the lexicographic maximum of the completed jobs and (0, 0); the completion is recorded, and the job is moved just if it is not above that maximum |
| WorkerPool.MaxKeyIsMax | debug-tools/shark/thread_manager.c:943-959 | no completed job is of a later group, or of the same group and a later list, than that pair says, and one is at it unless it is (0, 0) |
| WorkerPool.ReleasedBySecond | debug-tools/shark/thread_manager.c:939-969 | the second completion of a job always releases it, whatever was completed before and between |
| WorkerPool.ReleasedByFirst | debug-tools/shark/thread_manager.c:939-969 | the first one releases it just if something completed before is not below it |
| WorkerPool.JobMade | debug-tools/shark/thread_manager.c:613-655 | a list gets a job just if it is of a directory or file, or of a symbolic link and not new; each of the seven functions exactly for its combination of newness, type and openness; with the list's own group and place |
| WorkerPool.JobsMade | debug-tools/shark/thread_manager.c:610-674 | in order, exactly the lists that can get a job have one each |
| PoolJobs.StreamMade | debug-tools/shark/thread_manager.c:610-674 | from the written groups to the jobs: every written list that can get a job has one, in journal order, with the function that its newness, type and class ask for |
| ThreadPool.Pool.PopStep | debug-tools/shark/thread_manager.c:685-719 | with a job in the queue this thread is to run the first one, which leaves the queue and is on record as removed by it; else it turns to look for work; nothing else changes and the invariants hold |
| ThreadPool.Pool.LookStep | debug-tools/shark/thread_manager.c:549-607 | a group is read, or taken to be built, or neither, in each of the cases; nothing else changes and the invariants hold |
| ThreadPool.LookedWork | debug-tools/shark/thread_manager.c:549-607 | field by field for each case of a look; the thread leaves just if nothing is unread or at hand, all announced groups are read, the queue is empty, and it came to remove a job |
| ThreadPool.Pool.FillStep | debug-tools/shark/thread_manager.c:610-674 | one operation list becomes its job at the end of the queue, or none if it can have none, or building ends |
| ThreadPool.Pool.PerformStep | debug-tools/shark/thread_manager.c:991-1036 | the job in hand is performed and counted |
| ThreadPool.Pool.ChooseStep | debug-tools/shark/thread_manager.c:1038 | the completion goes to the manager's record at the next place |
| ThreadPool.Pool.ThreadStep | debug-tools/shark/thread_manager.c:972-1049 | whichever step the thread is at is taken, and the pool and the record are what that step makes of them |
| ThreadPool.NextOk | debug-tools/shark/thread_manager.c:540-1049 | every step of any thread keeps: no job lost, doubled or reordered; one builder at most; no group overwritten; every removed job performed once, by the thread that removed it; worker_size the queue length |
| ThreadPool.RemovedInOrder | debug-tools/shark/thread_manager.c:540-720 | jobs removed, queue, builder's rest, group at hand and unread groups make up the journal's jobs in order |
| ThreadPool.AllPerformed | debug-tools/shark/thread_manager.c:972-1049 | once everything is drained every job has been performed exactly once |
| ThreadPool.NextHanded | debug-tools/shark/thread_manager.c:1034-1038 | every performed job is in the manager's record or in the hands of the thread about to hand it in |
| ThreadPool.AllReported | debug-tools/shark/thread_manager.c:1034-1038 | when none is in hand, every job's completion is in the record |
| PoolSystem.NextStateOk | debug-tools/shark/thread_manager.c:540-1049 | every step of the generator or of a thread of either pool keeps the invariants of both pools and of the record, and each pool works through the jobs of the groups as its own reader gives them |
| PoolSystem.StateAfter | debug-tools/shark/thread_manager.c:540-1049 | every state that any run from the empty system reaches satisfies all of that |
| PoolSystem.RunPools | debug-tools/shark/thread_manager.c:540-1049 | the program, run in any interleaving of the generator and all threads of both pools, reaches exactly the state that the steps amount to; every state on the way keeps all invariants |
| PoolSystem.StreamTwins | debug-tools/shark/thread_manager.c:613-655 | both mounts get the same jobs: function, arguments and place, one by one |
| PoolSystem.ReleasedAfterBoth | debug-tools/shark/thread_manager.c:939-1038 | in every state of the system, a job that both mounts have completed has been given to worker_move_list |
| PoolProgress.StepNearer | debug-tools/shark/thread_manager.c:540-1049 | while a thread is left and the pool is not drained, some thread's step brings the end nearer by a well-founded measure and keeps that thread |
| PoolProgress.DrainsExactly | debug-tools/shark/thread_manager.c:540-1049 | after any run, some steps of the threads alone drain both pools if and only if each pool is drained or has a thread left |
| PoolProgress.EveryJobDone | debug-tools/shark/thread_manager.c:540-1049 | and then every job of the journal has been performed once on each mount, handed in, and released |
| PoolProgress.AnnouncedJobsDone | debug-tools/shark/thread_manager.c:559-592 | with at least one thread a pool, this is so after every run that has written no more groups than were announced: no thread leaves too early |
| PoolSystem.StepInStep | debug-tools/shark/thread_manager.c:550-557 | a pool's look at the journal is a call of its reader and gives just what that call must give |
| PoolSystem.PoolsReadTheJournal | debug-tools/shark/thread_manager.c:540-607 | in every run the journal and both pools agree on the groups written and on how many each reader has got |
| FileNodes.NodeTable.UsecntUpdate | debug-tools/shark/shark_file.c:677-720 | a place of the parent chain changes, by one, exactly if neither it nor any place before it is an initial directory; no other node changes |
| FileNodes.WalkUp | debug-tools/shark/shark_file.c:688-715 | the loop along the parents ends and changes exactly those places, each once |
| FileNodes.CountExact | debug-tools/shark/shark_file.c:677-720 | in every state of a run a node's use count is the number of busy nodes that have it as an ancestor with no initial directory at or below it on the way |
| FileNodes.NodeTable.CheckPathDepth | debug-tools/shark/shark_file.c:100-118 | whether a node has fewer than 10 ancestors |
| FileNodes.NodeTable.FileNodeCreate | debug-tools/shark/shark_file.c:349-611 | one new node with the next index, under the parent that the first landing random number gives, idle or busy as asked; the parent is idle again; all counts exact; without a landing number only the index is used up |
| FileNodes.FirstLanding | debug-tools/shark/shark_file.c:376-406 | the parent is that of the first random number that lands: the mount point, or an idle directory of fewer than 10 ancestors |
| FileNodes.DrawnIs | debug-tools/shark/shark_file.c:378-383 | a random number stands for its remainder by the count of directories, for the mount point if there are none |
| FileNodes.NodeTable.MakeBusy | debug-tools/shark/shark_ops.c:1056-1101 | an idle node becomes busy and its ancestors are used once more; any other index changes nothing |
| FileNodes.NodeTable.Release | debug-tools/shark/shark_posix.c:57-71 | a busy node leaves, its ancestors are used once less, and it becomes idle again or not; any other index changes nothing |
| FileNodes.Shallow | debug-tools/shark/shark_file.c:100-118 | in every valid state a node has at most 10 ancestors, the parent walk ends, counts are not negative, and an index is in one tree at most |
| FileNodes.Run | debug-tools/shark/shark_file.c:349-732 | any sequence of these operations goes through states each of which follows from the one before by its operation, and in each the counts are exact, the indices apart and the paths shallow |
| FileNodes.GetPathForFileNode | debug-tools/shark/shark_file.c:759-797 | the names from the top down with slashes between |
| FileNodes.PathSegments | debug-tools/shark/shark_file.c:759-797 | what stands between the slashes is the name of every ancestor, from the top down, and then the node's own |
| FileNodes.CutStrToInt | debug-tools/shark/thread_manager.c:34-69 | the number at the front of what follows the last slash, for every string |
| FileNodes.LongIs | debug-tools/shark/thread_manager.c:60-66 | blanks, a sign or none, and digits give that number, whatever follows them |
| FileNodes.IndexRoundTrip | debug-tools/shark/thread_manager.c:529-531 | from mount path and node path the index comes back that the name was printed with, as a 64-bit number |
| Lists.ListAdd | debug-tools/shark/list.h:26-34 | both directions of the ring stay right, the element behind the given place |
| Lists.ListAddTail | debug-tools/shark/list.h:37-45 | the element at the end |
| Lists.ListAddOrder | debug-tools/shark/list.h:54-71 | the element behind the last one that is not greater |
| Lists.AddOrderKeepsSorted | debug-tools/shark/list.h:48-71 | a sorted list stays sorted and its elements keep their order |
| Lists.PlaceAfterEqual | debug-tools/shark/list.h:48-71 | the place is behind all equal elements |
| Lists.ListDelInit | debug-tools/shark/list.h:84-92 | the rest is the ring without the element, which becomes a ring of its own |
| Lists.ListMove | debug-tools/shark/list.h:95-100 | the element goes to the front of its list |
| Lists.ListMoveAcross | debug-tools/shark/list.h:95-100 | or to the front of another |
| Lists.ListMoveTail | debug-tools/shark/list.h:103-108 | the element goes to the end |
| Lists.ListMoveTailAcross | debug-tools/shark/list.h:103-108 | or to the end of another |
| Lists.ListSpliceInit | debug-tools/shark/list.h:139-148 | all elements move to the front of the other list, in order, and the first list is empty |
| Lists.ListAppendInit | debug-tools/shark/list.h:171-180 | all elements move to the end of the other list, in order, and the first list is empty |
| Lists.ListRotateLeft | debug-tools/shark/list.h:221-229 | the first element goes to the end |
| Lists.EmptyIsAlone | debug-tools/shark/list.h:111-115 | a list is empty just if its head is alone in the ring |
| Layouts.CreateLayoutTable | debug-tools/shark/shark_ops.c:134-521 | the table of the shares: contiguous intervals from 0, newest first |
| Layouts.RandomHandler | debug-tools/shark/shark_ops.c:543-573 | the key of the first layout that holds the draw, -1 if none does or the accuracy is 0 |
| Layouts.DrawnKey | debug-tools/shark/shark_ops.c:562-570 | a draw gives a key just if it lies in that key's interval, and -1 just if it lies behind all |
| Layouts.KeyFrequency | debug-tools/shark/shark_ops.c:543-573 | over all draws each key comes h times with h <= accuracy * ratio < h + 1 |
| Layouts.KeysDeclared | debug-tools/shark/shark_ops.c:134-521 | the tables of operations hand out exactly the numbers of the operations that the journal can carry in their class, the others the file types, the classes of directories or files, and yes or no |
| Layouts.NoMiss | debug-tools/shark/shark_ops.c:543-573 | no draw gives -1 just if the parts add up to the accuracy |
| Layouts.WholeParts | debug-tools/shark/shark_ops.c:158-171 | whole products are not cut: the intervals end at the accuracy times the sum of the ratios |
| Layouts.WholePartsNoMiss | debug-tools/shark/shark_ops.c:543-573 | with whole products and ratios that add up to 1, no draw gives -1 |

## Left out

- DecodeMatrix.GenDecodeMatrix: does not model the retry with another last row (decode_list.c:163-192); the first inversion decides.
- ErasureSearch.Search.Visit: every inversion succeeds.
- ErasureSearch.Search.Ftw: every matrix build succeeds; the early return after a failed one, which leaves its flag and counters set, is not modelled.
- StripeCodec.Encode: k = 0 is excluded (the loop of the original does not end), as are null pointers and failing allocations.
- StripeDecode.Decode: fragments are whole chunks; what is read beyond the end of a buffer, which only happens with a number cut, counts as zero; `temp_buff` is taken to have a slot for every fragment, the original sizes it by the number of errors.
- JournalStream.Journal.AnalyzeStringRead: the offsets are unbounded, while the program keeps them in an int and so ends at 2 GiB; the text consists of whole groups of at least one list, with strings free of blanks and newlines; limits of line and path buffers are not modelled.
- JournalText.Atoi: numbers that an int cannot hold are cut modulo 2^32, which C leaves to the library.
- FileNodes.NodeTable.FileNodeCreate: system calls succeed, and the choice of a target for a symbolic link, which goes back to where it was taken from, is not modelled.
- FileNodes.CutStrToInt: numbers that a 64-bit word cannot hold are cut modulo 2^64, which C leaves to the library; the 1024-byte limit of its buffer is not modelled.
- RbCopy.Copy: allocation and the item copy succeed; the recovery from their failure is not modelled.
- RbTable.Table.Insert: items are compared by value, the program compares their addresses: an equal item at another address is returned there and none here.
- ErasureSearch.Init: allocations succeed; for k = m `calloc` is taken to give a pointer for its zero bytes, where the program returns -errno if it gives none.
- RbTable.Table.Probe: fewer than 2^64 - 2 items; RbTraverser and RbHistory: fewer than 2^64 changes between two uses of a cursor, so that the wrapped generation number tells them apart.
- Layouts.CreateLayoutTable: ratios are exact; rounding of floating-point numbers is not modelled.
- Lists.ListDel: the two poison addresses are null.
- `rb_replace`, `rb_t_cur`, `rb_t_replace` and the checks of allocator arguments.
- The existence of inverses (Cauchy matrices), `gf_vect_mul_init` tables and the vector code behind `gf_vect_dot_prod`.
- PoolProgress.EveryJobDone: a thread that exits because of an operation error (`pool_oper_tolerate`), or is stopped by `destroy`, is not modelled; and it says that the work can always be finished, not that a scheduler will.
- The pool's own (group, list) pair, error counting, disk-space check, shutdown flags and `destroy`.
- What worker_move_list does with the operations of a job beyond giving nodes back.
- Memory freeing outside `rb_destroy`, locks, system calls, logging, configuration files and all scripts.
