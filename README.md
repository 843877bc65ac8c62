# Page-replacement simulator, modelled in Dafny

The repository is a teaching simulator for three page-replacement policies. Each
policy runs over a reference string (a list of integer page numbers) with a
fixed number of frames:

- **FIFO** evicts the page that was loaded first.
- **LRU** evicts the page that was used least recently.
- **Optimal** evicts the page whose next reference is farthest away, or a page
  that is never referenced again.

The repository contains the engine three times:

- `finalCode.py` is a desktop simulator. Each step records the frames *before*
  the reference, the page and the running fault count. Its LRU keeps every
  page in the slot it was loaded into and tracks recency in a separate list.
  Its Optimal picks the victim with a helper that ends in NumPy's `argmax`.
- `streamlitCode.py` is a web simulator. It records the frames *after* each
  reference, with a Hit/Miss label. Its LRU reorders the frame list itself, and
  its Optimal scans the frames with an early `break`. The fault curve it plots
  is the cumulative sum of the Miss labels.
- `page_replacement.cpp` is a command-line simulator that only counts faults:
  - FIFO uses a queue plus a page → present map.
  - LRU uses a page → last-use-index map and evicts the smallest index.
  - Optimal searches the reference string by absolute position.

The model has one shared specification (module `Replacement`):

- `Next` is the effect of one reference on the resident list.
- `FramesAt` folds `Next` over a prefix.
- `FaultsAt` and `TotalFaults` count the misses.
- `IsOptimalChoice` characterises the Optimal victim, and `OptimalChoiceUnique`
  shows the characterisation leaves only one slot.

Every algorithm of the three implementations is an imperative method whose loop
keeps the implementation's own state: lists, a queue, maps, slot vectors. Each
method is proved to return exactly what the specification says.

Because every variant's fault count is proved equal to `TotalFaults` of the same
policy, the three implementations agree on every input with at least one frame.
The C++ program also accepts a negative frame count. It compares that count
with container sizes as a `size_t`, where it wraps to a bound no run reaches,
so nothing is ever evicted. Each C++ policy then counts one fault per distinct
page (`Replacement.NoEvictionFaults`). The implementations' frame lists also match:

- The desktop LRU's slots are a permutation of the recency list the web LRU
  keeps (`FinalCode.LruSlotsMatchQueue`).
- The C++ LRU map holds exactly the resident pages, each with its last-use index.

Module `QueueOrder` proves what makes FIFO and LRU the policies they claim to be:

- The evicted head is the earliest-loaded page (FIFO) or the least recently used
  page (LRU).
- LRU has the inclusion property, so adding a frame never adds a fault.

Module `Examples` proves Belady's anomaly for FIFO on the classic string, and
the textbook LRU run: 12 faults on 7,0,1,2,0,3,0,4,2,3,0,3,2,1,2,0,1,7,0,1
with three frames.

Files:

- `common.dfy`: `Option` and `Result`.
- `lists.dfy`: the list operations the sources use.
- `replacement.dfy`: the shared specification.
- `queue_order.dfy`: queue order, the LRU inclusion property and fault monotonicity.
- `final_code.dfy`: the desktop simulator.
- `streamlit_code.dfy`: the web simulator.
- `page_replacement_cpp.dfy`: the command-line simulator.
- `examples.dfy`: Belady's anomaly and the textbook LRU run.

## Model

| member | source | states |
|---|---|---|
| Lists.IndexOf | finalCode.py:77 | `list.index`: the position of the first occurrence of the page |
| Lists.RemoveFirst | streamlitCode.py:57 | `list.remove` of a present page leaves a list one element shorter; which elements remain, and where, is stated by `Lists.RemoveFirstSpec` |
| Lists.RemoveFirstSpec | streamlitCode.py:57 | `list.remove` drops the first occurrence only: earlier elements stay in place, later ones move up by one |
| Lists.RemoveFirstNoDup | finalCode.py:81 | removing a page from a duplicate-free list leaves a duplicate-free list without that page and with every other page |
| Lists.ArgMax | finalCode.py:111 | `np.argmax`: an index of a largest element, and the leftmost one |
| Replacement.FirstAbsent | finalCode.py:105-110 | the leftmost frame whose page does not occur in the future, or none exactly when every page does |
| Replacement.IsOptimalChoice | streamlitCode.py:81-93 | the victim rule. Its contract states what makes the rule optimal: the victim is a valid slot, and if its page is referenced again, so is every other frame's page, and none of them later than the victim's |
| Replacement.OptimalVictim | streamlitCode.py:81-93 | the slot Optimal overwrites satisfies the victim rule: the leftmost absent page, otherwise the leftmost farthest next use |
| Replacement.OptimalChoiceUnique | page_replacement.cpp:67-81 | the victim rule is satisfied by one slot only, so the three implementations' scans agree |
| Replacement.Next | streamlitCode.py:21-26 | one reference under any of the three policies; its own contract states only that the requested page is resident afterwards. Its effect on the resident pages and on the list's length is stated by `Replacement.NextResident`. The order of the list is stated by `QueueOrder.QueueOrderInvariant` and `QueueOrder.LruRequestedIsLast` for FIFO and LRU. The slot positions are stated by `Replacement.OptimalKeepsSlots` for Optimal |
| Replacement.FramesAt | streamlitCode.py:19-31 | the resident list after a prefix; its own contract states only that the page of the last reference is resident. Validity and size are stated by `Replacement.FramesAtResident` |
| Replacement.IsMissAt | streamlitCode.py:21 | the `page not in frame` test: a reference faults when its page is not resident before it. It is a definition with no contract of its own; `Replacement.FirstReferenceFaults` states when it holds |
| Replacement.FaultsAt | streamlitCode.py:27 | the running fault count after a prefix. It is a definition with no contract of its own; `Replacement.FaultsAtStep` and `Replacement.FaultsAtBounds` state how it grows and its bounds |
| Replacement.TotalFaults | streamlitCode.py:27 | the fault count of a whole run: at least one fault per distinct page, at most one per reference |
| Replacement.NextResident | finalCode.py:53-58 | one reference keeps the frames duplicate-free and within capacity, and makes the page resident. A hit keeps the same pages. A miss with room adds the page. A miss on full frames swaps out exactly the evicted page |
| Replacement.Evicted | page_replacement.cpp:19-23 | a reference evicts only a resident page other than the one requested |
| Replacement.FramesAtResident | streamlitCode.py:21-27 | after every prefix the frames are duplicate-free, within capacity and hold only referenced pages. They hold all distinct pages seen until full, then exactly `capacity` |
| Replacement.NextKeepsResident | streamlitCode.py:48-58 | one reference preserves the facts of `FramesAtResident` |
| Replacement.FirstReferenceFaults | finalCode.py:53 | the first reference to a page faults under every policy |
| Replacement.FaultsAtBounds | page_replacement.cpp:26 | the fault count is at most the number of references and at least the number of distinct pages |
| Replacement.ResidentIsSeen | page_replacement.cpp:17-26 | until the frames fill up, every page referenced so far is resident |
| Replacement.NoEvictionFaultsAt | page_replacement.cpp:17-26 | while no more references have been made than there are frames, the fault count is the number of distinct pages seen |
| Replacement.NoEvictionFaults | page_replacement.cpp:19 | with at least as many frames as references, every policy faults exactly once per distinct page |
| Replacement.FaultsAtStep | finalCode.py:53-59 | the running count grows by exactly one on a miss and stays put on a hit |
| Replacement.OptimalKeepsSlots | finalCode.py:97-99 | under Optimal every page that stays resident keeps its slot; only the victim's slot changes |
| QueueOrder.LruStampIsLastUse | page_replacement.cpp:52 | under LRU a page's stamp (the last reference that moved it back) is its last use |
| QueueOrder.QueueOrderInvariant | streamlitCode.py:21-30 | FIFO's and LRU's lists are ordered by stamp, and every page that left was stamped before the head |
| QueueOrder.QueueOrderStep | streamlitCode.py:48-58 | one reference preserves that order |
| QueueOrder.FifoHitOrder | streamlitCode.py:21-30 | a FIFO hit leaves list and stamps as they were |
| QueueOrder.MovedOrder | streamlitCode.py:48-58 | a move to the back (an LRU hit, or any miss) keeps the list in stamp order |
| QueueOrder.OrderedMoveBack | streamlitCode.py:57-58 | remove-then-append of a resident page keeps the order |
| QueueOrder.OrderedAppend | streamlitCode.py:22-23 | appending a new page with the newest stamp keeps the order |
| QueueOrder.OrderedDropHead | streamlitCode.py:25-26 | `pop(0)` then append keeps the order |
| QueueOrder.VictimIsOldest | page_replacement.cpp:19-22 | the head FIFO and LRU evict has the smallest stamp of all resident pages |
| QueueOrder.LruRequestedIsLast | streamlitCode.py:48-58 | after every reference the page just referenced is the last element of LRU's list |
| QueueOrder.LruVictimLeastRecent | page_replacement.cpp:40-48 | the page LRU evicts was referenced before every other resident page |
| QueueOrder.LruInclusion | streamlitCode.py:48-58 | the pages LRU keeps with `cap` frames are also kept with `cap + 1` frames |
| QueueOrder.LruStaysResident | streamlitCode.py:48-58 | a page resident with `cap` frames is resident with one frame more |
| QueueOrder.ResidentOnlyInLarger | streamlitCode.py:48-58 | if the smaller memory holds a page the larger lacks, the larger holds one the smaller lacks |
| QueueOrder.LruEvictedOlder | streamlitCode.py:52-53 | a page LRU has evicted was last used before every page it kept |
| QueueOrder.LruStepMonotone | streamlitCode.py:54 | one reference adds no more faults with one frame more than with `cap` frames |
| QueueOrder.LruMissMonotone | streamlitCode.py:48-55 | a reference that misses with one frame more also misses with `cap` frames |
| QueueOrder.LruFaultsMonotone | streamlitCode.py:54 | LRU never faults more with one frame more (no Belady anomaly for LRU) |
| FinalCode.Trace | finalCode.py:51-60 | the steps: one per reference, in order, each the frames before the reference, the page and the faults up to it |
| FinalCode.FifoAlgorithm | finalCode.py:46-61 | returns the FIFO trace and `TotalFaults(FIFO)` |
| FinalCode.LruSlotsAt | finalCode.py:70-78 | the slot list of the slot-keeping LRU: there are never more slots than frames. That the slots hold exactly LRU's resident pages is stated by `FinalCode.LruSlotsMatchQueue` |
| FinalCode.LruSlotsMatchQueue | finalCode.py:63-84 | `recent` is a permutation of the slot list: same pages, each once, same length |
| FinalCode.LruKeepsSlots | finalCode.py:76-78 | on a reference only the evicted page's slot is overwritten; every other slot keeps its page, or one slot is appended |
| FinalCode.LruSlotsStep | finalCode.py:70-83 | one reference, branch by branch: the page is in the slots exactly when LRU has it resident; a hit keeps the slots, moves the page to the back of `recent` and adds no fault; a miss with room appends to both lists; a miss on full frames finds the head of `recent` in a slot, overwrites that slot and pops the head; each miss adds one fault and one row `(slots before, page, faults)` |
| FinalCode.LruAlgorithm | finalCode.py:63-84 | returns the slot-keeping LRU trace and `TotalFaults(LRU)`, with `recent` equal to the shared LRU list throughout |
| FinalCode.FindOptimalReplace | finalCode.py:104-111 | returns the slot the victim rule picks |
| FinalCode.OptimalAlgorithm | finalCode.py:86-102 | returns the Optimal trace and `TotalFaults(Optimal)` |
| FinalCode.RunSimulation | finalCode.py:158-163 | fails exactly when `frame_size <= 0` or the string is empty; otherwise returns the three runs on the same input |
| StreamlitCode.Snapshots | streamlitCode.py:31 | one snapshot per reference, each the frames after it |
| StreamlitCode.Outcomes | streamlitCode.py:21-30 | one label per reference; Miss exactly when the page was not resident |
| StreamlitCode.MissCount | streamlitCode.py:27-28 | the number of Miss labels is at most the number of labels |
| StreamlitCode.CumulativeFaults | streamlitCode.py:196 | `np.cumsum` of the miss indicators: each entry adds one per Miss and zero per Hit to the previous entry, and the last entry is the Miss count |
| StreamlitCode.FifoPageReplacement | streamlitCode.py:11-36 | returns the FIFO snapshots and labels, and a fault count equal to `TotalFaults(FIFO)` and to the Miss count |
| StreamlitCode.LruPageReplacement | streamlitCode.py:38-65 | returns the same for LRU, with remove-then-append on a hit and `pop(0)` on a full miss |
| StreamlitCode.ScanVictim | streamlitCode.py:82-92 | the scan with `farthest = -1`, strict `>` and `break` returns the slot the victim rule picks |
| StreamlitCode.OptimalPageReplacement | streamlitCode.py:67-103 | returns the same for Optimal |
| StreamlitCode.MissCountIsFaults | streamlitCode.py:27-28 | the Miss labels of a prefix count its faults |
| StreamlitCode.MissCountSnoc | streamlitCode.py:27-28 | appending a label adds one to the Miss count exactly when the label is Miss |
| StreamlitCode.CumulativeAt | streamlitCode.py:196 | each point of the cumulative curve is the running fault count |
| StreamlitCode.CumulativeIsRunningFaults | streamlitCode.py:196 | the curve is the running fault count and ends at the total |
| PageReplacementCpp.SizeT | page_replacement.cpp:19 | the `size_t` that `frames` becomes in `size() >= frames`: below 2^64, the count itself when it is not negative, and above `INT_MAX` when it is |
| PageReplacementCpp.Fifo | page_replacement.cpp:12-31 | returns `TotalFaults(FIFO)` for the converted frame count, and the number of distinct pages when the count is negative; the map is true exactly for the pages in the queue (loop invariant) |
| PageReplacementCpp.LeastRecentlyUsed | page_replacement.cpp:41-47 | the search from `INT_MAX`, in any iteration order, returns a key with the smallest index |
| PageReplacementCpp.SmallestIndexIsVictim | page_replacement.cpp:40-48 | on a full miss the smallest-index entry is the page LRU evicts, whatever the iteration order |
| PageReplacementCpp.LastUseMapFacts | page_replacement.cpp:39-40 | the map answers "is it resident" and "how many" as the resident list does, and every index is an earlier one |
| PageReplacementCpp.LastUseMapStep | page_replacement.cpp:48-52 | erasing the victim and recording the current index keeps the map exact: the resident pages, each with its last-use index |
| PageReplacementCpp.LastUseMapHit | page_replacement.cpp:38-52 | on a hit, recording the current index keeps the map exact and the fault count unchanged |
| PageReplacementCpp.LastUseMapInsert | page_replacement.cpp:38-52 | on a fault with room to spare, recording the page keeps the map exact and the count goes up by one |
| PageReplacementCpp.LastUseMapEvict | page_replacement.cpp:40-52 | on a fault with the frames full, erasing the smallest-index entry and recording the page keeps the map exact and the count goes up by one |
| PageReplacementCpp.Lru | page_replacement.cpp:34-56 | returns `TotalFaults(LRU)` for the converted frame count, and the number of distinct pages when the count is negative |
| PageReplacementCpp.NextReference | page_replacement.cpp:70-72 | the first position at or after `i + 1` holding the page, or the string's length when there is none |
| PageReplacementCpp.FarthestFrame | page_replacement.cpp:67-81 | the scan over absolute positions, with strict `k > farthest` and `break`, returns the slot the victim rule picks |
| PageReplacementCpp.Optimal | page_replacement.cpp:59-91 | returns `TotalFaults(Optimal)` for the converted frame count, and the number of distinct pages when the count is negative |
| Examples.BeladyThree | streamlitCode.py:125 | FIFO faults 9 times on 1,2,3,4,1,2,5,1,2,3,4,5 with three frames |
| Examples.BeladyFour | streamlitCode.py:125 | FIFO faults 10 times on the same string with four frames |
| Examples.FifoIsNotMonotone | streamlitCode.py:125 | FIFO can fault more with more frames (Belady's anomaly) |
| Examples.LruTextbookRun | streamlitCode.py:38-65 | LRU faults 12 times with three frames on any string whose entries are 7,0,1,2,0,3,0,4,2,3,0,3,2,1,2,0,1,7,0,1 |
| Examples.LruTextbook | streamlitCode.py:38-65 | LRU faults 12 times on that textbook string with three frames |

## Left out

- User interfaces are not modelled: the Tkinter window, the Streamlit page, the Plotly, matplotlib and animation figures, the CSV download and the explanation texts. They are presentation only.
- Wall-clock timing (`execution_time`, `response_times`) is not modelled, because it is not deterministic.
- The floating-point percentages (`memory_utilization`, hit and fault rates) are not modelled. Only integer counts are.
- Parsing the reference string with Python's `int` and `split(',')` is not modelled. The model takes the parsed list.
- The C++ `cin`/`cout` and `saveResults` file I/O are not modelled.
- The error dialog of `run_simulation` is not modelled. `FinalCode.RunSimulation` returns `Failure("Invalid input")` in its place.
- The Hit/Miss labels are the two constructors of `Outcome`, not the strings "Hit" and "Miss".
- PageReplacementCpp.Fifo, PageReplacementCpp.Lru, PageReplacementCpp.Optimal: these require `frames != 0`, which `main` never checks.
  - With `frames == 0`, the first reference makes FIFO call `front()` on an empty queue.
  - LRU and Optimal read the uninitialised `pageToRemove` and `pageToReplace`.
  - Those runs have undefined behaviour and are not modelled. An empty reference string with `frames == 0` would print 0; it is excluded too.
  - A negative `frames` is modelled. `SizeT` assumes a 64-bit `size_t`.
  - The model also requires at most `INT_MAX` references, so that the `int` indices and counters do not overflow.
- PageReplacementCpp.LeastRecentlyUsed and PageReplacementCpp.FarthestFrame initialise `pageToRemove` and `pageToReplace`, which C++ leaves uninitialised. The proofs show the search always assigns them before they are used.
- PageReplacementCpp.FarthestFrame and PageReplacementCpp.NextReference: the inner search loop is its own method rather than inline.
- PageReplacementCpp.LeastRecentlyUsed: the `unordered_map` iteration order is modelled as an arbitrary choice of the next key. The result is proved for every order.
- StreamlitCode.FifoPageReplacement, StreamlitCode.LruPageReplacement, StreamlitCode.OptimalPageReplacement require `capacity >= 1`. The page's slider never offers less (streamlitCode.py:344).
- FinalCode.LruSlotsAt has a last branch that overwrites nothing. That branch is never taken (`FinalCode.LruSlotsMatchQueue`); the source would raise there instead.
- The claim that Optimal never faults more than FIFO or LRU on the same input is not proved. It needs an exchange argument over whole runs that is beyond this model.
