# Proofs about the hard parts of a study repository

The repository collects coursework in C, a copy of Bochs 2.4.5 and samples of the kernel documentation. This project
models seven of its programs in Dafny and proves what they are for. Programs that work in place are methods over
classes and arrays, proved against functions and predicates of values; what is promised is proved about those.

- **Red-black tree** (`RbHeap`, `RbShape`, `RbTree`, `RbErase`, `RbDictionary`, `RbContents`, `KeyOrder`). The nodes are
  objects with `left`, `right`, `parent` and `color`. A snapshot of their fields is related to a tree with a hole (`Ctx`)
  and the subtree in it (`Tree`), so that each piece of pointer surgery is one change of shape and the loops climb from
  hole to hole. Every run of insertions and erasures leaves a valid tree whose contents are a finite map.
- **Bochs timers** (`Timers`, `PcSystem`, `TimerRuns`, `TimerPromises`, `TimerCallbacks`, `TimerRearming`, `PcRuns`).
  `Sched` is what is promised: a list of deadlines, a clock that moves by one, and whatever is due fires. `Clock` is the
  32-bit countdown that stands for it. The class `PcSystem` has the fields of the source and its methods do what `Clock`
  says; `Clock` refines `Sched`; and over every run, of `Sched`, of `Clock` and of the object, a timer that nobody
  touches fires exactly when registering, activating or deactivating it promised. A run of `Clock` or of the object is
  one in which the calls, those of callbacks included, are calls the source allows.
- **Sorting** (`Sorts`, `ShellSort`, `HeapSort`, `QuickSort`, `MergeSort`). Among the results are that Shell sort stays
  sorted for all earlier gaps, and that merge sort is stable.
- **Sudoku** (`Sudoku`). Depth-first search with exact undoing: the first solution in lexicographic order, or the input.
- **CRC-32, twice** (`Polynomials`, `Registers`, `CrcRegister`, `Crc`, `CrcValue`, `CrcHash`). Long division over the
  field of two elements is the reference (section 3.2.9 of IEEE 802.3). Shift registers are treated for words of any
  kind that obey a few laws; the 32-bit word of the source obeys them.
- **Josephus ring** (`Josephus`) and **Base64** (`Base64`, section 4 of RFC 4648).
- **ELF symbol lookup** (`ElfHash`, `Vdso`), against the "Hash Table" section of chapter 5 of the System V gABI.

## Where the code differs from what it promises

- `C/红黑树.c:329` compares keys by their difference. In 32 bits that is right exactly when the difference fits
  (`KeyOrder.TurnsAsOrderedExactly`), and a key is found exactly when all differences on the way to it do
  (`RbDictionary.SearchExactly`); `RbDictionary.WrappedMisses` is a tree in which a key is missed.
- `C/huawei/6.c:39` compares offsets within the box with coordinates of the board. `Sudoku.Solver.Judge` states exactly
  what that computes; for an empty cell, the only use, it is the test that is meant.
- `C/base64.c:113-186` decodes a group that was not full to one zero byte too many; `Base64.RoundTrip` says so.
- `Documentation/vDSO/parse_vdso.c:81-92` uses `unsigned long`. With 64 bits the hash can differ from the one of the ABI,
  and a symbol be missed: `ElfHash.WidthsAgree` says exactly for which names the hashes are equal, `Vdso.VdsoInfo.Sym`
  what the lookup then does, and `Vdso.LookForLongName` misses a symbol of a correct table. Versions are not
  affected, because their hash is cut to 32 bits (`ElfHash.VersionHash`).

## Model

| member | source | states |
|---|---|---|
| RbTree.RotateLeft | C/红黑树.c:93-121 | the left rotation turns the subtree at the node and leaves every other child and parent link as it was |
| RbTree.RotateRight | C/红黑树.c:130-158 | the right rotation, likewise |
| RbShape.TurnOrder | C/红黑树.c:93-158 | either rotation keeps the in-order sequence of the nodes |
| RbTree.Flip | C/红黑树.c:173-176 | recolouring parent, uncle and grandparent changes these three colours and no link |
| RbShape.InsertFlipped | C/红黑树.c:171-177 | after the recolouring the grandparent carries the only possible red-red violation; order and black heights stay |
| RbShape.InsertTurnedLeft | C/红黑树.c:178-191 | after the turns of the left case no violation is left; order and black heights stay |
| RbShape.InsertTurnedRight | C/红黑树.c:203-216 | the mirror case |
| RbTree.InsertTurnLeft | C/红黑树.c:178-191 | the pointer surgery of the left case does that to the heap, for an inner and for an outer node |
| RbTree.InsertTurnRight | C/红黑树.c:203-216 | the mirror case |
| RbTree.InsertRoundLeft | C/红黑树.c:164-192 | one round below a left parent: order kept, at most one violation, two levels higher or none |
| RbTree.InsertRoundRight | C/红黑树.c:193-218 | one round below a right parent |
| RbTree.InsertRebalance | C/红黑树.c:160-223 | the loop ends, with a valid colouring, equal black heights, agreeing links and the same order |
| RbErase.EraseRedSiblingLeft | C/红黑树.c:233-240 | a red sibling is turned away: black sibling, red parent, same order, the missing black still at the node |
| RbErase.EraseRedSiblingRight | C/红黑树.c:273-280 | the mirror case |
| RbErase.EraseBlackSiblingLeft | C/红黑树.c:241-247 | black nephews: the missing black moves to the parent |
| RbErase.EraseBlackSiblingRight | C/红黑树.c:281-287 | the mirror case |
| RbErase.EraseInnerLeft | C/红黑树.c:250-259 | a red inner nephew becomes a red outer nephew; order and the missing black stay |
| RbErase.EraseInnerRight | C/红黑树.c:290-299 | the mirror case |
| RbErase.EraseFinishLeft | C/红黑树.c:260-269 | a red outer nephew: the last turn makes the whole tree valid, with the same order |
| RbErase.EraseFinishRight | C/红黑树.c:300-309 | the mirror case |
| RbErase.EraseDecideLeft | C/红黑树.c:241-269 | with a black sibling: recolour and go up one level, or finish |
| RbErase.EraseDecideRight | C/红黑树.c:281-309 | the mirror case |
| RbErase.EraseRoundLeft | C/红黑树.c:231-270 | one round on the left: the invariant of the loop is kept and the missing black climbs, meets a red node or is gone |
| RbErase.EraseRoundRight | C/红黑树.c:271-310 | one round on the right |
| RbErase.EraseLast | C/红黑树.c:313-316 | painting the last node black makes the whole tree valid, whether it is red or the root |
| RbErase.EraseRebalance | C/红黑树.c:225-319 | the loop ends with a valid tree in the same order, from any tree that lacks one black at one place |
| RbDictionary.SearchAuxiliary | C/红黑树.c:321-350 | with differences cut to 32 bits: if none on the way overflows, the search finds the node of the key, or the place under which the key belongs; in no more steps than the height |
| RbDictionary.SearchExactly | C/红黑树.c:321-350 | with 32-bit keys the search finds a key if and only if it is in the tree and no difference on the way to it overflows |
| RbDictionary.WrappedMisses | C/红黑树.c:329-341 | a valid tree of two keys in which the search misses one of them |
| RbDictionary.Attach | C/红黑树.c:362-381 | the new node hangs red at that place and nothing else changes |
| RbDictionary.Insert | C/红黑树.c:352-384 | from a valid tree, if no difference on the way overflows: a present key leaves the heap untouched, an absent one goes into its place of the order; the tree is valid |
| RbDictionary.Unlink | C/红黑树.c:415-433 | a node with at most one child is replaced by that child, with both links set |
| RbDictionary.Successor | C/红黑树.c:404-410 | the leftmost node of the right subtree is found |
| RbDictionary.TakePlace | C/红黑树.c:440-465 | the successor takes over the links and the colour of the erased node |
| RbDictionary.TakeOutOne | C/红黑树.c:469-498 | erasing a node with a missing child: only it leaves the order, and at most one black is missing |
| RbDictionary.TakeOutTwo | C/红黑树.c:404-466 | erasing a node with two children, also when the successor is its own child: only it leaves the order, and at most one black is missing |
| RbDictionary.Erase | C/红黑树.c:391-509 | from a valid tree, if no difference on the way overflows: an absent key leaves the heap untouched, a present one leaves, and the tree is valid |
| RbShape.HeightBound | C/红黑树.c:321-350 | a valid tree of n keys has height at most 2 log2(n + 1), as 2^height <= (n + 1)^2 |
| RbContents.InsertKey | C/红黑树.c:352-384 | as a map: inserting adds the pair, or changes nothing for a present key |
| RbContents.EraseKey | C/红黑树.c:391-509 | as a map: erasing removes the key, or changes nothing for an absent one |
| RbContents.Search | C/红黑树.c:386-389 | a node comes back exactly for the keys of the map, with the data of the map, after at most 2 log2(n + 1) steps |
| RbContents.Run | C/红黑树.c:352-509 | over any run of insertions and erasures from the empty tree, each key within 2^31 of the keys then in the tree: the tree is valid and its contents are the finite map of the run |
| RbContents.RunAndSearch | C/红黑树.c:352-509 | and a search after it finds exactly the keys of that map, each with its data |
| KeyOrder.TurnsAsOrderedExactly | C/红黑树.c:329-341 | with 32-bit keys the difference node->key - key, wrapped, turns the search the right way exactly when the difference fits 32 bits |
| KeyOrder.OneSignIsEnough | C/红黑树.c:329-341 | keys of one sign always do; concrete keys that do not |
| PcSystem.PcSystem.constructor | APUE3/bochs-2.4.5/pc_system.cc:48-65 | the null timer is the only one, active and continuous |
| PcSystem.PcSystem.Initialize | APUE3/bochs-2.4.5/pc_system.cc:67-83 | establishes the invariant at time 0 |
| PcSystem.PcSystem.TimeTicks | APUE3/bochs-2.4.5/pc_system.h:123-126 | the 64-bit reading is the current time, nothing truncated |
| PcSystem.PcSystem.RegisterTimerTicks | APUE3/bochs-2.4.5/pc_system.cc:258-316 | takes the first free slot, sets its deadline, keeps the invariant and the time, and means registering a deadline |
| PcSystem.PcSystem.ActivateTimerTicks | APUE3/bochs-2.4.5/pc_system.cc:458-491 | sets a new deadline, keeps the invariant and the time, and means just that for the list of deadlines |
| PcSystem.PcSystem.DeactivateTimer | APUE3/bochs-2.4.5/pc_system.cc:527-537 | switches one timer off and changes nothing else |
| PcSystem.PcSystem.UnregisterTimer | APUE3/bochs-2.4.5/pc_system.cc:539-567 | refuses an active timer and changes nothing; else frees the slot, and gives up the last one |
| PcSystem.PcSystem.SetTimer | APUE3/bochs-2.4.5/pc_system.cc:337-364 | one slot of the sweep: due or not, off or set to its next deadline, and the minimum so far |
| PcSystem.PcSystem.Sweep | APUE3/bochs-2.4.5/pc_system.cc:334-365 | which timers are due, all timers set anew, and the earliest deadline left |
| PcSystem.PcSystem.SetTimers | APUE3/bochs-2.4.5/pc_system.cc:320-371 | the next countdown fits 32 bits and ends at the earliest deadline; the time stays |
| PcSystem.PcSystem.Fire | APUE3/bochs-2.4.5/pc_system.cc:376-380 | a callback sees the right time, and what it does to timers keeps the invariant and the time |
| PcSystem.PcSystem.FireAll | APUE3/bochs-2.4.5/pc_system.cc:373-381 | exactly the due timers are called back, in the order of the slots, also if an earlier callback switched one off |
| PcSystem.PcSystem.CountdownEvent | APUE3/bochs-2.4.5/pc_system.cc:318-382 | both halves together |
| PcSystem.PcSystem.Tick1 | APUE3/bochs-2.4.5/pc_system.h:100-104 | one tick: the clock moves by one and whatever is due fires |
| PcSystem.PcSystem.TickN | APUE3/bochs-2.4.5/pc_system.h:105-115 | n ticks at once have the effect of n single ticks: same timers, same callbacks at the same times, time advanced by n |
| PcSystem.PcSystem.TimeUsecSequential | APUE3/bochs-2.4.5/pc_system.cc:435-449 | every reading is later than the one before and not before the clock |
| Timers.EarliestIsLeast | APUE3/bochs-2.4.5/pc_system.cc:334-365 | the minimum of the sweep is the least active deadline |
| Timers.FreeSlotIsFirst | APUE3/bochs-2.4.5/pc_system.cc:271-275 | the slot that is found is the first one not in use |
| Timers.WaitFits | APUE3/bochs-2.4.5/pc_system.cc:367-371 | the wait for the next event is positive and at most the null timer's interval, so the 32-bit cast loses nothing |
| Timers.EventGood | APUE3/bochs-2.4.5/pc_system.cc:318-382 | the event keeps the invariant and means: set the due timers anew and call them back |
| Timers.TickGood | APUE3/bochs-2.4.5/pc_system.h:100-104 | counting down means a tick of the list of deadlines, with an event or without |
| Timers.TicksGood | APUE3/bochs-2.4.5/pc_system.h:100-104 | n calls of tick1 mean n ticks, and the time moves by n, if no callback that they make asks for what is not allowed |
| Timers.TameTicks | APUE3/bochs-2.4.5/pc_system.cc:373-381 | no callback does, in any number of ticks, if those in the table never would, whatever the state of the devices and the time; and ticks leave every slot in use as it was, with its callback |
| TimerRuns.OwnTimerRuns | APUE3/bochs-2.4.5/pc_system.cc:258-567 | if every callback acts on its own timer only, a run is legal exactly if its callers keep to what the source asks, whenever the timers are registered and given up |
| Timers.TicksToEvent | APUE3/bochs-2.4.5/pc_system.h:106-109 | jumping to the end of the countdown is the same as ticking there |
| Timers.TicksWithin | APUE3/bochs-2.4.5/pc_system.h:112-114 | before that, ticks only count down |
| TimerRuns.RunKept | APUE3/bochs-2.4.5/pc_system.cc:318-382 | the promise, of the list of deadlines: over every run of ticks, activations, registrations and callbacks, a timer nobody touches fires exactly at its deadlines: none early, late or lost |
| TimerRuns.ClockRunKept | APUE3/bochs-2.4.5/pc_system.cc:318-382 | the same of the countdown |
| TimerRuns.ContinuousTimer | APUE3/bochs-2.4.5/pc_system.cc:352-357 | for the list of deadlines: a continuous timer of period p activated at t fires at t+p, t+2p, ... and at no other time |
| TimerRuns.ContinuousOnClock | APUE3/bochs-2.4.5/pc_system.cc:318-382 | the same of the countdown, over every legal run after the activation |
| TimerRuns.OneShotTimer | APUE3/bochs-2.4.5/pc_system.cc:348-351 | for the list of deadlines: a one-shot timer fires once, at its deadline, and is then off |
| TimerRuns.OneShotOnClock | APUE3/bochs-2.4.5/pc_system.cc:318-382 | the same of the countdown, over every legal run after the activation |
| TimerRuns.BeatsClosed | APUE3/bochs-2.4.5/pc_system.cc:344-358 | the deadlines of a timer left alone, in closed form |
| TimerRuns.ClockRunRefines | APUE3/bochs-2.4.5/pc_system.cc:288-371 | in every state of every legal run the countdown is positive and fits 32 bits, no active deadline lies before the next event, and the countdown has done what the list of deadlines promises |
| TimerRuns.OnlyTicksTakeTime | APUE3/bochs-2.4.5/pc_system.cc:288-307 | of the countdown: registering, activating, deactivating and unregistering never change the time, skewed as the countdown may be; a tick adds one and n ticks add n |
| PcRuns.Run | APUE3/bochs-2.4.5/pc_system.cc:258-567 | any run of commands on the object does what the countdown does |
| PcRuns.ActivateAndRun | APUE3/bochs-2.4.5/pc_system.cc:318-491 | on the object: a timer is activated and the system runs on; left alone, it fires at t+p, t+2p, ... if it is continuous and once at t+p if not, and at no other time |
| TimerPromises.RegisteredTimer | APUE3/bochs-2.4.5/pc_system.cc:258-316 | for the list of deadlines: over any run after its registration the slot taken, left alone, fires at t+p, t+2p, ... if continuous, once at t+p if not, and never if registered inactive |
| TimerPromises.RegisteredOnClock | APUE3/bochs-2.4.5/pc_system.cc:258-316 | the same of the countdown, over every legal run |
| PcRuns.RegisterAndRun | APUE3/bochs-2.4.5/pc_system.cc:258-316 | and on the object |
| TimerPromises.DeactivatedTimer | APUE3/bochs-2.4.5/pc_system.cc:527-537 | for the list of deadlines: over any run after it is deactivated a timer left alone does not fire, and stays off |
| TimerPromises.DeactivatedOnClock | APUE3/bochs-2.4.5/pc_system.cc:527-537 | the same of the countdown, over every legal run |
| PcRuns.DeactivateAndRun | APUE3/bochs-2.4.5/pc_system.cc:527-537 | and on the object |
| TimerPromises.UnregisteredTimer | APUE3/bochs-2.4.5/pc_system.cc:539-567 | after a timer is unregistered nothing fires in its slot until that is taken again |
| TimerPromises.UnregisteredOnClock | APUE3/bochs-2.4.5/pc_system.cc:539-567 | the same of the countdown, over every legal run |
| PcRuns.UnregisterAndRun | APUE3/bochs-2.4.5/pc_system.cc:539-567 | and on the object |
| TimerPromises.SlotGivenUp | APUE3/bochs-2.4.5/pc_system.cc:539-567 | a slot that is given up is the one the next registration takes, unless an earlier one was free |
| TimerCallbacks.LeftAlone | APUE3/bochs-2.4.5/pc_system.cc:258-567 | a slot in use that no command and no callback names is left alone, over any run |
| TimerCallbacks.RegisteredCalls | APUE3/bochs-2.4.5/pc_system.cc:373-381 | each time a timer fires the callback it was registered with is called for its slot at that time, and what the call does to the devices lasts: devices that note their calls note exactly these |
| TimerRearming.RearmingTimer | APUE3/bochs-2.4.5/pc_system.cc:373-381 | what a callback does to timers takes effect: a one-shot timer whose callback activates it anew fires every period, over any run that does not name it |
| TimerRearming.RearmingOnClock | APUE3/bochs-2.4.5/pc_system.cc:373-381 | the same of the countdown, over every legal run |
| ShellSort.StaysSorted | C/huawei/paixu.c:129-145 | sorting with one gap keeps a sequence sorted for every other gap for which it was |
| ShellSort.InsertOne | C/huawei/paixu.c:135-141 | one element goes into its place among those d apart, with s[0] as scratch |
| ShellSort.Pass | C/huawei/paixu.c:134-142 | after the pass the elements d apart are sorted, each chain being a permutation of what it was |
| ShellSort.ShellSort | C/huawei/paixu.c:129-145 | sorted, a permutation, still sorted for every gap that was used, and nothing beyond n touched |
| HeapSort.Sift | C/huawei/paixu.c:150-170 | restores the heap from the hole down, permuting its range only |
| HeapSort.BuildHeap | C/huawei/paixu.c:176-179 | the first loop makes a heap of all |
| HeapSort.RootIsMax | C/huawei/paixu.c:182 | the root of a heap is its greatest element |
| HeapSort.SelectStep | C/huawei/paixu.c:180-186 | each turn of the second loop puts the greatest element left behind the heap |
| HeapSort.HeapSort | C/huawei/paixu.c:172-187 | sorted, and a permutation of its range with all else unchanged |
| QuickSort.FromRight | C/huawei/paixu.c:107-112 | the scan from the right moves the hole and keeps what is parted |
| QuickSort.FromLeft | C/huawei/paixu.c:113-118 | the scan from the left, likewise |
| QuickSort.Partition | C/huawei/paixu.c:102-120 | the hole ends with i = j, the pivot in its final place, nothing greater before it and only greater ones behind |
| QuickSort.Joined | C/huawei/paixu.c:122-125 | two sorted ranges on either side of the pivot are one sorted range |
| QuickSort.QuickSortRange | C/huawei/paixu.c:98-126 | the recursion on a range that is not empty: sorted, and a permutation of that range |
| QuickSort.QuickSort | C/huawei/paixu.c:98-126 | sorted, a permutation of its own range, and only s[0] and that range touched |
| MergeSort.MergedStable | C/huawei/paixu.c:198-213 | merging keeps the order of equal keys, the left ones first |
| MergeSort.MergedSorted | C/huawei/paixu.c:198-213 | merging sorted sequences gives a sorted one |
| MergeSort.Merge | C/huawei/paixu.c:193-219 | the merge in place is that merge, and touches its range only |
| MergeSort.MergeSort | C/huawei/paixu.c:221-230 | the result is sorted, and elements with equal keys keep their order |
| MergeSort.StablySortedUnique | C/huawei/paixu.c:16 | stability fixes the result: there is only one stably sorted order |
| MergeSort.StablySortedPermutes | C/huawei/paixu.c:221-230 | it is a permutation of the input |
| Sudoku.Solver.Judge | C/huawei/6.c:25-42 | the answer is whether no other cell of the row, the column or the box holds the number, for an empty cell; and what it is for a filled one |
| Sudoku.Solver.BoxClear | C/huawei/6.c:35-40 | the box test with its comparison of offsets and coordinates, exactly |
| Sudoku.SoundIffSolves | C/huawei/6.c:25-63 | testing each number when it is written accepts exactly the fillings without conflict |
| Sudoku.Solver.Try | C/huawei/6.c:53-60 | one number: kept if the rest can be filled, with the first completion; else taken back exactly |
| Sudoku.Solver.Dfs | C/huawei/6.c:43-63 | the flag is set exactly if the prefix can be completed; the board then holds the first completion in lexicographic order, and is restored otherwise |
| Sudoku.SmallerFirst | C/huawei/6.c:53-60 | the order of fillings: smaller numbers first at the first cell where they differ |
| Sudoku.ReadingOrder | C/huawei/6.c:70-85 | the order of cells: row by row, each from left to right |
| Sudoku.Solver.Load | C/huawei/6.c:70-85 | the board shows the input and the list holds its empty cells, all of them, in reading order |
| Sudoku.Solver.Puzzle | C/huawei/6.c:68-85 | solved if and only if a filling without conflict exists, with the lexicographically first; if not solved there is no board with the clues and nine different numbers in each row, column and box, and the input is left as it was; if solved and the clues do not conflict it is such a board |
| Sudoku.SolvedBoard | C/huawei/6.c:25-42 | if the clues do not conflict the solved board has no conflict anywhere and no empty cell |
| Sudoku.SolvedLine | C/huawei/6.c:12-13 | then every row, column and box holds every number from 1 to 9 |
| Sudoku.PeersShareLine | C/huawei/6.c:25-42 | two cells exclude each other exactly when they are different cells of one row, one column or one box |
| Sudoku.RuleSolves | C/huawei/6.c:43-63 | every full board with nine different numbers in each row, column and box that has the clues is among the fillings that are searched for |
| Sudoku.SolvesRule | C/huawei/6.c:43-63 | and if the clues do not conflict every filling that is found is such a board |
| Polynomials.Division | APUE3/bochs-2.4.5/crc.cc:36-51 | long division over the field of two elements: quotient and remainder satisfy dividend = quotient * divisor + remainder, and no others do |
| Registers.PushDivides | APUE3/bochs-2.4.5/crc.cc:46-49 | a shift register that takes in a message bit by bit holds the remainder of what it held and of the message times x^32 |
| Registers.PushWord | APUE3/bochs-2.4.5/crc.cc:46-49 | taking in n bits one by one is adding them first and stepping n times |
| CrcRegister.Lawful32 | APUE3/bochs-2.4.5/crc.cc:46-49 | the step of the source on 32-bit words satisfies the laws of such a register, with the generator 0x04c11db7 |
| Crc.TableStep | APUE3/bochs-2.4.5/crc.cc:62-63 | one byte through the table is eight bit-serial steps |
| Crc.EntryOne | APUE3/bochs-2.4.5/crc.cc:57-58 | the test of the second entry tells a built table from an empty one |
| Crc.TableCrc.MakeEntry | APUE3/bochs-2.4.5/crc.cc:47-49 | the entry is the register after eight steps from the index |
| Crc.TableCrc.Init | APUE3/bochs-2.4.5/crc.cc:41-51 | all 256 entries are built |
| Crc.TableCrc.Run | APUE3/bochs-2.4.5/crc.cc:61-63 | the table loop from any register is the bit-serial register, for every buffer |
| Crc.TableCrc.Crc32 | APUE3/bochs-2.4.5/crc.cc:53-65 | the result is the complement of the remainder of the message, preset with ones, whether or not this call builds the table |
| Crc.FeedDivides | APUE3/bochs-2.4.5/crc.cc:61-63 | the register preset with ones holds the remainder of the message times x^32 with its first 32 bits complemented |
| Crc.ChecksumRemains | APUE3/bochs-2.4.5/crc.cc:61-64 | and that remainder is the only one: the preset message is a multiple of the generator polynomial plus it and plus nothing else |
| CrcValue.CheckValue | APUE3/bochs-2.4.5/crc.cc:53-65 | the checksum of the digits "123456789" is 0xfc891918, the check value of this CRC-32 |
| Crc.BurstChecksum | APUE3/bochs-2.4.5/crc.cc:53-65 | different messages of one length that differ only within 32 consecutive bits, or in a shorter message anywhere, have different checksums |
| CrcHash.ShiftDownMirrors | Documentation/pcmcia/crc32hash.c:17-18 | the reflected step is the other program's step seen in a mirror |
| CrcHash.HashByte | Documentation/pcmcia/crc32hash.c:16-18 | one byte of the reflected loop is one mirrored byte through the other register |
| CrcHash.Hash | Documentation/pcmcia/crc32hash.c:11-21 | the reflected result, reversed, is crc.cc's loop from register 0 over the message with each byte reversed |
| CrcHash.HashDivides | Documentation/pcmcia/crc32hash.c:11-21 | so it is the mirrored remainder of the mirrored message times x^32 |
| CrcHash.Bridge | Documentation/pcmcia/crc32hash.c:11-21 | the two programs run side by side |
| CrcHash.ReverseByteBit | Documentation/pcmcia/crc32hash.c:11-21 | and so for bytes |
| Crc.GeneratorPowers | APUE3/bochs-2.4.5/crc.cc:39 | the divisor is the generator polynomial of section 3.2.9 of IEEE 802.3: below x^32 it has exactly the powers 26, 23, 22, 16, 12, 11, 10, 8, 7, 5, 4, 2, 1 and 0 |
| CrcHash.ReverseBit | Documentation/pcmcia/crc32hash.c:11-21 | the reversal does reverse: bit i becomes bit 31 - i |
| Josephus.Build | C/huawei/4-2.c:13-18 | the first N nodes, or one for less, form a ring numbered from 0 |
| Josephus.Delete | C/huawei/4-2.c:29-30 | one turn takes the third node out and leaves one ring, from the node after it on, also for two nodes |
| Josephus.LastOf | C/huawei/4-2.c:23-31 | the loop ends on any ring, with the survivor of counting out |
| Josephus.SurvivorStands | C/huawei/4-2.c:23-31 | the survivor stands at J(n), where J(1) = 0 and J(n) = (J(n - 1) + 3) mod n |
| Josephus.KnownRings | C/huawei/4-2.c:23-31 | of five, of seven and of ten the one numbered 3 is left |
| Josephus.Josephus | C/huawei/4-2.c:13-31 | for every N up to the size of the array the number left is J(N) |
| Base64.Changed | C/base64.c:86-95 | each place of a group is the six bits of section 4 of RFC 4648, or padding |
| Base64.Prepare | C/base64.c:70-84 | up to three bytes are packed into 24 bits, missing ones as zero |
| Base64.Base64Encode | C/base64.c:41-105 | the text takes the bits of the input six at a time, in the letters of section 4 of RFC 4648, with zero bits and padding at the end: 4 * ceil(n / 3) characters and the terminator, in a buffer that just fits |
| Base64.Letter | C/base64.c:96 | the characters of the alphabet, of padding and of the terminator, one by one |
| Base64.EncodeBits | C/base64.c:41-105 | encoding group by group is taking the bits of the whole input six at a time |
| Base64.PublishedTexts | C/base64.c:41-105 | the texts of "f", "fo" and "foo" in section 10 of RFC 4648 |
| Base64.FindPos | C/base64.c:107-111 | the position of a character of the string `base`, which is its only one, or of its terminator |
| Base64.BufferFits | C/base64.c:115-149 | the decoder's buffer has room for all it writes, for every length and padding |
| Base64.Base64Decode | C/base64.c:113-186 | for every text of three or more characters of `base` or its terminator: the bytes of its groups without the trailing padding, then zeros |
| Base64.GroupRoundTrip | C/base64.c:160-182 | a group decodes to its bytes, and to one zero byte more if it was not full |
| Base64.RoundTrip | C/base64.c:41-186 | decoding an encoded non-empty input gives it back, with one zero byte more if its length is not a multiple of three |
| Base64.EncodeInjective | C/base64.c:41-105 | different inputs have different texts |
| Base64.ThereAndBack | C/base64.c:29-32 | encoding, strlen and decoding give the input and then only zeros; read as a string it is the input, if that holds no zero byte |
| ElfHash.HashName | Documentation/vDSO/parse_vdso.c:81-92 | the loop computes the hash for either width of unsigned long |
| ElfHash.TurnBit | Documentation/vDSO/parse_vdso.c:86-89 | one turn bit by bit: of 16 * h + c, bits 28 to 31 are cleared and bit k of 4 to 7 becomes the exclusive or of bits k and k + 24; the others stay |
| ElfHash.VersionValue | Documentation/vDSO/parse_vdso.c:81-92 | the hash of "LINUX_2.6" is 0x3ae75f6 |
| ElfHash.LowHalf | Documentation/vDSO/parse_vdso.c:81-92 | with 64 bits the low half is the hash of the "Hash Table" section of the System V gABI, for every name |
| ElfHash.VersionHash | Documentation/vDSO/parse_vdso.c:246-248 | the hash of a version, cut to 32 bits when it is passed on, is right for either width |
| ElfHash.WidthsAgree | Documentation/vDSO/parse_vdso.c:81-92 | with 64 bits the whole hash is that one if and only if none of the last eight characters makes the sum overflow 32 bits |
| ElfHash.WidthsDiffer | Documentation/vDSO/parse_vdso.c:81-92 | a name of seven bytes for which they differ |
| Vdso.VdsoInfo.Init | Documentation/vDSO/parse_vdso.c:94-182 | valid exactly if the header is right and no table is missing; the header of the hash table is read, and without definitions versions are dropped |
| Vdso.VdsoInfo.FindsFirst | Documentation/vDSO/parse_vdso.c:202-214 | what is found is the first definition on the links that has the index and is not the base definition |
| Vdso.VdsoInfo.FindsNone | Documentation/vDSO/parse_vdso.c:202-217 | nothing is found exactly if no definition on the links is one |
| Vdso.VdsoInfo.MatchVersion | Documentation/vDSO/parse_vdso.c:184-220 | true exactly if the first definition of that version has the hash and the name |
| Vdso.VdsoInfo.Accepts | Documentation/vDSO/parse_vdso.c:232-249 | the tests together: a defined global or weak function of this name and version |
| Vdso.VdsoInfo.Search | Documentation/vDSO/parse_vdso.c:231-254 | along a finite chain: the first symbol that qualifies, nothing exactly if none does |
| Vdso.VdsoInfo.ChainTells | Documentation/vDSO/parse_vdso.c:229-254 | the chain of the name's bucket tells about the whole table |
| Vdso.VdsoInfo.Sym | Documentation/vDSO/parse_vdso.c:222-255 | nothing is found exactly when a scan of the whole table finds nothing or the wide hash leads to another bucket; what is found qualifies and is given by its value plus the load offset, is the first on the chain of the bucket that qualifies, and is the one if there is only one |
| Vdso.RightBucket | Documentation/vDSO/parse_vdso.c:229 | the bucket is right with 32 bits, and with 64 when none of the last eight characters overflows |
| Vdso.DividingBuckets | Documentation/vDSO/parse_vdso.c:229 | it is always right when the number of buckets divides 2^32 |
| Vdso.LookForLongName | Documentation/vDSO/parse_vdso.c:222-255 | a table of two symbols in three buckets, correctly filled, from which a symbol is found with 32 bits and missed with 64 |
| Vdso.LookForWeak | Documentation/vDSO/parse_vdso.c:222-255 | a weak function of version LINUX_2.6 with the hidden bit set, in an image loaded at an offset, is found at its value plus the offset |
| Vdso.VdsoInfo.QualifiesMeans | Documentation/vDSO/parse_vdso.c:184-249 | what is looked for, in the numbers of the System V gABI: a defined global or weak function of the name, whose version index without its top bit leads to a first definition with the name and the hash of the version |

## Left out

- RbDictionary.Insert: the differences taken on the way must fit 32 bits, as signed overflow is undefined in C; `RbDictionary.SearchExactly` tells what a wrapping difference does to the search. A failing `malloc` is not modelled.
- RbDictionary.Erase: likewise; `free` is not modelled, and the erased node is simply no longer part of the tree.
- RbContents.InsertKey, RbContents.EraseKey and RbContents.Search: likewise.
- RbContents.Run: each key lies within 2^31 of the keys then in the tree, whether or not it is compared with all of them.
- The key and the data of a tree node are constants: the program writes them when it makes the node and never again.
- PcSystem.PcSystem.TickN: the time and every period stay below 2^62, so that no 64-bit sum wraps.
- PcSystem.PcSystem.RegisterTimerTicks: the name and the `this` pointer of a timer are left out, and there is a free slot among the 64.
- PcSystem.PcSystem.Fire: a callback is a function of the devices, its timer and the time. What it does when it is called is to activate and deactivate timers of the table other than the null timer, with periods of at most 2^62; of calls that are not made nothing is asked. Registering, unregistering or ticking inside a callback is not allowed, because `triggered` is set only for the slots that existed when the event began.
- PcSystem.PcSystem.Initialize: the interval of the null timer is any number of 32 bits above 0; `m_ips`, HRQ and the rest of the machine are left out.
- PcSystem.PcSystem.TimeUsecSequential: the clock in microseconds is an input that never goes back, as the conversion in floating point is left out.
- MergeSort.MergeSort: elements carry a tag beside the key, so that stability can be seen; the counter `ans` is left out.
- Sudoku.Solver.Puzzle: the input is 81 numbers, not characters, and nothing is printed.
- Josephus.Josephus: N is at most 1000, the size of the array of the source.
- Base64.Base64Decode: texts of at least three characters, because the last three are read; characters that are neither in `base` nor its terminator make `strrchr` return no position. The buffer `need`, which is never used, is left out.
- Vdso.VdsoInfo.Sym: names stand in place of their offsets and entry numbers in place of byte offsets; finding the tables in the image and the zero address as an answer are left out.
- Vdso.VdsoInfo.Init: the walk over program headers and dynamic entries is left out; its outcome is what the parameters say.
- Vdso.VdsoInfo.Search: the tables are large enough for their headers and the chains end, as the gABI asks.
- Long functions of the source are split into several methods; a method that only does a part cites the lines of that part.
- The other programs of the repository: system call samples, kernel modules, plumbing of Bochs, and simple lists, stacks and queues.
- `access_linear` of gdbstub.cc, `C/Double-linklist/DList.c`, `C/hashchazhao.c` and `ltdl.c`: not modelled.
