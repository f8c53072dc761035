# Verified model of libcdsa's containers

libcdsa is a container library in C: ordered maps and sets over red-black trees, hash maps and
sets, lists, a priority queue, a deque, lazy sequences, calendar arithmetic, strings and two
allocators. This project models their algorithms in Dafny, in the form the C code has (pointer
structures, arrays and counters changed in place by loops), and proves what they keep and what
they compute.

Verify it with `dafny verify dfyconfig.toml`.

## How to read it

- **Red-black trees.** `RedBlackShape` describes a tree in memory seen from one of its nodes: the
  subtree below and the path to the root. `RedBlackRules` proves, on shapes, what each case of the
  two fixup loops does. `RedBlackTree` is the class with the pointers and the shared sentinel; each
  method carries the place it works at as a ghost argument. Its abstract state is `Items()`, the
  pairs in ascending order, and `order`, the entry objects in that order. `SortedItems` shows that
  such pairs are a map up to equality under the comparator. `TreeMap` and `TreeSet` add the
  operations; a tree set is the same tree with elements as keys.
- **Lists.** `Sorting` says what sorting means and `ArraySorting` what the steps of the array sorts
  do; `ArrayList` and `LinkedList` are the two classes with their iterators. `Lists` has the cursor
  machine that both iterators follow, `CursorLaws` what runs of it answer and leave, and
  `ListIterators` runs the two side by side.
- **Sequences.** `Pipeline` has the stages as functions on whole lists and the interpreter with its
  phases, counters and buffers. `PointerSet` is the hash set by address behind a distinct, and ties
  the number of its buckets to `HashMap`.
- **Hash tables.** `HashTable` treats tables as values, `HashMap` the buckets and chains in memory,
  `HashSet` the deleting sweeps and the algebra, of which `SetAlgebra` has what it shares with
  `TreeSet`. `Bits` is bitwise "and" with power-of-two masks, `Pointers` the hash of an address.
- `Temporal`, `PriorityQueue`, `Deque`, `Allocators` and `Strings` stand for one source file each.

Long C functions are split into several methods, one for each case or loop, so that each proof
stays small; left and right cases of the trees are separate methods over lemmas that take the side
as a parameter. Sizes are unbounded integers. Whether memory can be had is a parameter of an
operation, or an arbitrary choice inside it; operations that allocate several times take a function
that tells which allocations succeed. An error the source sets is a returned value.
Comparators are total preorders; `equals` is an equivalence that agrees with `hash`. Growth and
load factors are fractions. Destructors are not called; where it matters which elements are
destroyed (`ArrayList.RemoveRange`) they are recorded.

## Where the code departs from what it promises

Each of these is proved of the model, together with the exact condition under which the promise is kept.

- Adding through an array-list iterator advances the cursor even when the list could not grow
  (src/collections/list/array_list.c, lines 824-833); a linked-list iterator stays where
  it is. This happens exactly when the buffer is full and there is no memory or the growth factor is
  refused, and at the end of the list the cursor leaves it (`ArrayLists.ArrayIterator.Do`).
  `ArrayLists.CursorLeavesList` builds such a list; asking for the previous element would then read
  behind the buffer.
- Merge sort on an array list gives up on a single merge when it finds no memory and goes on. The
  result is ascending exactly when no such merge was needed (`ArraySorting.MergedBySorts`); an
  ascending list stays ascending whichever merges fail, and no other list does
  (`ArraySorting.AscendingWhateverFails`).
- The distinct stage takes an equality but hashes by address, so that equal elements at different
  addresses can both pass. It works exactly when the address of each repeated element agrees, modulo
  the number of buckets, with that of the one it repeats (`Pipelines.DistinctMeaning`);
  `Pipelines.DistinctMisses` shows two that both pass.
- The maximum and minimum of a sequence take a null element for no element yet, which is right
  exactly when the comparator puts null before everything (`Pipelines.NullsMustYield`);
  `Pipelines.MaxLosesNull` is a list for which it is wrong.
- `take_while` and `drop_while` are described as working while the test holds; the code judges every
  element by itself. `Pipelines.TakeWhileIsPrefix` and `Pipelines.DropWhileIsSuffix` say exactly when
  that makes no difference.
- The size of a hash table can exceed its threshold, but only at the largest size and never with a
  load factor below two: the `if and only if` in `HashMaps.HashMap.Put`. `HashMaps.OverfullMap` builds
  one, from nothing, for which it does.

## Model

| member | source | states |
|---|---|---|
| `RedBlackRules.PushedOk` | src/collections/map/tree_map.c:822-860 | recolouring under a red uncle moves the only violation two levels up and keeps heights and in-order sequence |
| `RedBlackRules.RaisedOk` | src/collections/map/tree_map.c:822-860 | an outer red grandchild is repaired by recolouring and one rotation: nothing red-red is left, heights and in-order sequence stay |
| `RedBlackRules.UnkinkedOk` | src/collections/map/tree_map.c:822-860 | an inner red grandchild becomes an outer one by one rotation, still the only violation |
| `RedBlackRules.RootBlack` | src/collections/map/tree_map.c:822-860 | blackening the root after the loop yields a red-black tree with the same in-order sequence |
| `RedBlackRules.SiblingIsNode` | src/collections/map/tree_map.c:862-916 | while a subtree lacks one black node its sibling is a real node, so the loop never dereferences the children of the sentinel |
| `RedBlackRules.LeanedOk` | src/collections/map/tree_map.c:862-916 | a red sibling is rotated up; the deficit stays where it was, now under a red parent with a black sibling |
| `RedBlackRules.LiftedOk` | src/collections/map/tree_map.c:862-916 | reddening a black sibling with black children moves the deficit to the parent |
| `RedBlackRules.StraightenedOk` | src/collections/map/tree_map.c:862-916 | a sibling whose outer child is black gets a red outer child by one rotation, the deficit unchanged |
| `RedBlackRules.SettledOk` | src/collections/map/tree_map.c:862-916 | a sibling with a red outer child ends the deficit by one rotation: the tree is red-black again |
| `RedBlackRules.LogarithmicWalk` | src/collections/map/tree_map.c:704-717 | a walk down a red-black tree of n nodes takes at most 2 log2(n + 1) steps |
| `RedBlackShape.TurnDone` | src/collections/map/tree_map.c:918-952 | the seven pointer writes of either rotation turn the heap shape into the rotated tree and leave every other node alone |
| `RedBlackShape.SpliceDone` | src/collections/map/tree_map.c:763-809 | transplanting an only child, or the sentinel, over its parent removes exactly that node from the heap shape |
| `RedBlackShape.ReplaceDone` | src/collections/map/tree_map.c:763-798 | a node written into the place, colour and children of another makes a well-formed tree with the other one gone |
| `RedBlackRules.InorderTurn` | src/collections/map/tree_map.c:918-952 | a rotation keeps the in-order sequence |
| `RedBlackTrees.RedBlackTree.RotateLeft` | src/collections/map/tree_map.c:918-934 | the heap then represents the left-rotated tree at the same place |
| `RedBlackTrees.RedBlackTree.RotateRight` | src/collections/map/tree_map.c:936-952 | the heap then represents the right-rotated tree at the same place |
| `RedBlackTrees.RedBlackTree.FixInsertLeft` | src/collections/map/tree_map.c:822-860 | one round of the insert loop below a left parent: the red violation moves up or is gone, the in-order sequence stays |
| `RedBlackTrees.RedBlackTree.FixInsertRight` | src/collections/map/tree_map.c:822-860 | the mirrored round below a right parent |
| `RedBlackTrees.RedBlackTree.RebalanceAfterInsert` | src/collections/map/tree_map.c:822-860 | the insert loop terminates with a red-black tree of the same in-order sequence |
| `RedBlackTrees.RedBlackTree.FixDeleteLeft` | src/collections/map/tree_map.c:862-916 | one round of the delete loop at a left child: the black deficit moves up or is gone, the in-order sequence stays |
| `RedBlackTrees.RedBlackTree.FixDeleteRight` | src/collections/map/tree_map.c:862-916 | the mirrored round at a right child |
| `RedBlackTrees.RedBlackTree.RebalanceAfterDelete` | src/collections/map/tree_map.c:862-916 | the delete loop terminates with a red-black tree of the same in-order sequence and a black sentinel, also when it starts at the sentinel |
| `RedBlackTrees.RedBlackTree.GetEntry` | src/collections/map/tree_map.c:704-717 | finds the entry of an equal key exactly when there is one, in logarithmically many steps |
| `RedBlackTrees.RedBlackTree.Put` | src/collections/map/tree_map.c:227-268 | keeps all tree invariants; the map becomes the old one with the key set to the value, growing only for a new key, or is unchanged when a new key finds no memory |
| `RedBlackTrees.RedBlackTree.Transplant` | src/collections/map/tree_map.c:800-809 | the replacement hangs where the replaced node hung and points at its parent, the sentinel included |
| `RedBlackTrees.RedBlackTree.RemoveEntry` | src/collections/map/tree_map.c:763-798 | keeps all tree invariants; exactly the given entry leaves the in-order sequence and no other entry object loses its key or value |
| `RedBlackTrees.RedBlackTree.GetSuccessorEntry` | src/collections/map/tree_map.c:731-741 | the next entry in order, or the sentinel behind the last |
| `RedBlackTrees.RedBlackTree.GetPredecessorEntry` | src/collections/map/tree_map.c:719-729 | the previous entry in order, or the sentinel before the first |
| `RedBlackTrees.RedBlackTree.GetLowerEntry` | src/collections/map/tree_map.c:743-751 | the first entry of a subtree in order |
| `RedBlackTrees.RedBlackTree.GetHigherEntry` | src/collections/map/tree_map.c:753-761 | the last entry of a subtree in order |
| `SortedItems.FindPut` | src/collections/map/tree_map.c:227-268 | after a put a lookup gives the new value for equal keys and the old answer for all others |
| `SortedItems.PutKeys` | src/collections/map/tree_map.c:227-268 | a put leaves the entries of other keys alone, and an existing key keeps its own key object |
| `SortedItems.FindRemove` | src/collections/map/tree_map.c:343-350 | after a removal a lookup gives nothing for equal keys and the old answer for all others |
| `TreeMaps.Get` | src/collections/map/tree_map.c:294-298 | the value stored for an equal key, if any |
| `TreeMaps.Remove` | src/collections/map/tree_map.c:343-350 | removes the entry of an equal key, if any, and nothing else |
| `TreeMaps.RemoveFirst` | src/collections/map/tree_map.c:361-369 | removes the first entry, or reports an empty map |
| `TreeMaps.RemoveLast` | src/collections/map/tree_map.c:371-379 | removes the last entry, or reports an empty map |
| `TreeMaps.Higher` | src/collections/map/tree_map.c:459-473 | the least entry greater than the key, if any |
| `TreeMaps.Ceiling` | src/collections/map/tree_map.c:475-489 | the least entry not less than the key, if any |
| `TreeMaps.Floor` | src/collections/map/tree_map.c:491-505 | the greatest entry not greater than the key, if any |
| `TreeMaps.Lower` | src/collections/map/tree_map.c:507-521 | the greatest entry less than the key, if any |
| `TreeMaps.SubMap` | src/collections/map/tree_map.c:621-640 | a new map with the entries from the start key up to the end key, but for those that find no memory, in order; refused unless both keys are present and in order |
| `TreeMaps.Clone` | src/collections/map/tree_map.c:606-619 | a new map with the same entries in order, but for those that find no memory |
| `SortedItems.PutNext` | src/collections/map/tree_map.c:634-638 | putting the next entry of an ascending map behind those already copied appends it, whatever was left out before |
| `TreeMaps.Compute` | src/collections/map/tree_map.c:183-193 | the key's value becomes what the function makes of the old one, a null result removing it, and lookups of all other keys answer as before; fails if and only if a new key finds no memory |
| `TreeMaps.Merge` | src/collections/map/tree_map.c:215-225 | the key's value becomes the given one or its combination with the old one, a null result removing it and a stored null counting as absent, and lookups of all other keys answer as before; fails if and only if a new key finds no memory |
| `SortedItems.CutMeans` | src/collections/map/tree_map.c:459-521 | the cut that higher, ceiling, floor and lower look for separates the keys below from the keys above |
| `TreeSets.Visit` | src/collections/set/tree_set.c:276-289 | one round of a sweep: the successor fetched before the deletion is the next element afterwards, and the other set involved is left alone |
| `TreeSets.Sweep` | src/collections/set/tree_set.c:261-304 | remove_all, remove_if and retain_all visit every element once, leave exactly the elements that are not doomed, in order, and return the number removed |
| `TreeSets.KeptContains` | src/collections/set/tree_set.c:261-304 | what a sweep leaves contains exactly the elements that were there and are not doomed |
| `TreeSets.AddAll` | src/collections/set/tree_set.c:192-209 | memory permitting, afterwards the set contains what it contained and every delivered element; the changed flag says whether it grew, and otherwise it is the same |
| `TreeSets.Union` | src/collections/set/tree_set.c:998-1005 | memory permitting, exactly the union of the inputs and of what the result held before |
| `TreeSets.Intersection` | src/collections/set/tree_set.c:1007-1014 | memory permitting, exactly the elements of the first input or the old result that are in the second input |
| `TreeSets.Difference` | src/collections/set/tree_set.c:1016-1023 | memory permitting, exactly the elements of the first input or the old result that are not in the second input |
| `TreeSets.SymmetricDifference` | src/collections/set/tree_set.c:1025-1045 | for any content of the result, which is cloned: without memory for each element of the clone, and only then, there is no result and nothing changes; otherwise, with enough memory, exactly the elements of either the old result and the first input, or the second input, but not both |
| `Sorting.SortedUnique` | src/collections/list/array_list.c:448-460 | ascending order and stability determine the result of sorting |
| `Sorting.StableSortCorrect` | src/collections/list/array_list.c:895-905 | the reference sort is ascending and stable |
| `ArraySorting.MergeOfSorted` | src/collections/list/array_list.c:907-962 | merging two stably sorted halves is stably sorting the whole |
| `ArraySorting.MergedBySorts` | src/collections/list/array_list.c:907-931 | merge sort ends in ascending order if and only if every merge that finds no memory has halves already in order in the input; it is then the stable sort, and in any case a permutation |
| `ArraySorting.MergeNeedsSorted` | src/collections/list/array_list.c:919-962 | merging never repairs a half that is out of order |
| `ArraySorting.SortedIsHarmless` | src/collections/list/array_list.c:907-931 | an ascending list stays as it is whichever merges find memory |
| `ArraySorting.AscendingWhateverFails` | src/collections/list/array_list.c:907-931 | the lists that come out ascending whichever merges fail are exactly the ascending ones |
| `ArraySorting.LeftUnsorted` | src/collections/list/array_list.c:907-931 | a list of two in descending order that stays so when its merge finds no memory |
| `ArraySorting.SelectionSorts` | src/collections/list/array_list.c:883-893 | selection sort yields an ascending permutation |
| `ArraySorting.PartitionSplits` | src/collections/list/array_list.c:973-984 | the partition scan leaves the pivot between smaller-or-equal and greater elements and moves nothing outside the range |
| `ArraySorting.QuickSorts` | src/collections/list/array_list.c:964-984 | quick sort yields an ascending permutation of its range and leaves the rest alone |
| `ArraySorting.EveryAlgorithmSorts` | src/collections/list/array_list.c:448-460 | all five algorithms yield an ascending permutation; bubble, insertion and merge sort are stable |
| `ArrayLists.ArrayList.BubbleSort` | src/collections/list/array_list.c:873-881 | in place, the stable sort of the elements |
| `ArrayLists.ArrayList.InsertionSort` | src/collections/list/array_list.c:895-905 | in place, the stable sort of the elements |
| `ArrayLists.ArrayList.SelectionSort` | src/collections/list/array_list.c:883-893 | in place, the selection sort of the elements, whose order and permutation are proved separately |
| `ArrayLists.ArrayList.Merge` | src/collections/list/array_list.c:919-962 | merges two neighbouring ranges, equal elements of the left one first, and touches nothing else; without memory, and only then, nothing changes and an error is reported |
| `ArrayLists.ArrayList.MergeSort` | src/collections/list/array_list.c:907-916 | in place, what the recursion makes of the range when some merges find no memory, as the lemmas on merge sort judge it; an error is reported exactly when one did not |
| `ArrayLists.ArrayList.Partition` | src/collections/list/array_list.c:973-984 | in place, the partition scan and its pivot position |
| `ArrayLists.ArrayList.QuickSort` | src/collections/list/array_list.c:964-971 | in place, the quick sort of the range, whose order and permutation are proved separately |
| `ArrayLists.ArrayList.Sort` | src/collections/list/array_list.c:448-460 | a permutation, ascending for every algorithm but a merge sort, and for merge sort exactly when the merges that found no memory were not needed; when ascending it is the result of the chosen algorithm, and merge sort leaves an ascending list alone |
| `ArrayLists.Grows` | src/collections/list/array_list.c:718-730 | a growth factor that is not refused raises the capacity and keeps it in range |
| `ArrayLists.AcceptedMeans` | src/collections/list/array_list.c:718-730 | the growth factor is accepted exactly when some whole multiple of the capacity, at least the factor times it, is within the largest capacity |
| `ArrayLists.AcceptedBelow` | src/collections/list/array_list.c:718-730 | it is accepted in particular when the capacity times one more than the factor is within the largest capacity |
| `ArrayLists.ScaledMeans` | src/collections/list/array_list.c:718-730 | the grown capacity is the largest whole number not above the product |
| `ArrayLists.Limit` | src/collections/list/array_list.c:718-730 | repeated growth ends, in range, at a capacity at which the factor is refused; this limit times one more than the factor exceeds the largest capacity; it raises the capacity at all exactly when the factor is not refused at once |
| `ArrayLists.GrownCapacity` | src/collections/list/array_list.c:718-730 | the growing loop ends with the first multiple that suffices; it succeeds if and only if the request is within the limit |
| `ArrayLists.ArrayList.EnsureCapacity` | src/collections/list/array_list.c:718-730 | contents are kept; succeeds if and only if the buffer suffices or there is memory and the request is within the limit of growth, and failure leaves the buffer |
| `ArrayLists.ArrayList.Resize` | src/collections/list/array_list.c:732-749 | contents move to a buffer of the capacity brought into range, or stay when there is no memory |
| `ArrayLists.ArrayList.Add` | src/collections/list/array_list.c:149-165 | inserts at the index and counts a modification; fails if and only if the index is out of range, or the buffer is full and there is no memory or the growth factor is refused at its size; at a valid index and with memory it succeeds as long as the size times one more than the factor is within the largest capacity; errors leave the list as it was |
| `ArrayLists.ArrayList.Remove` | src/collections/list/array_list.c:261-277 | removes the element at the index and returns it; other indices are refused |
| `ArrayLists.ArrayList.RemoveRange` | src/collections/list/array_list.c:319-340 | in one pass destroys exactly the elements of the range, closes the gap and counts a modification; bad ranges are refused and change nothing |
| `ArrayLists.ArrayList.Reverse` | src/collections/list/array_list.c:1007-1015 | the positions of the range in the opposite order, the others unchanged |
| `Lists.ReversedRangeMeans` | src/collections/list/array_list.c:1007-1015 | reversing a range mirrors it, leaves what is before and behind it, and twice changes nothing |
| `ArrayLists.ArrayList.Rotate` | src/collections/list/array_list.c:476-489 | three reversals rotate by any distance, negative ones included |
| `Lists.RotatedTwice` | src/collections/list/array_list.c:476-489 | rotations add up, and rotating back restores the list |
| `Lists.RotatedAt` | src/collections/list/array_list.c:476-489 | each element moves on by the distance, modulo the length |
| `ArrayLists.ArrayIterator.Do` | src/collections/list/array_list.c:786-871 | each command does what the cursor machine does, if and only if it is not an add to a full buffer without memory or with the growth factor refused; such an add changes no element, is answered with the lack of memory, leaves nothing to set or remove, and moves the cursor on, out of the list when it was at its end, where every command but the previous element can still be given and only a reset leads back. A list modified elsewhere is reported |
| `ArrayLists.CursorLeavesList` | src/collections/list/array_list.c:810-833 | a full list of ten, built from nothing, on which an add without memory at the end takes the cursor behind the buffer while the modification counts agree, so that a previous element seems to be there |
| `LinkedLists.LinkedIterator.Do` | src/collections/list/linked_list.c:833-959 | each command acts as the cursor machine; an add without memory changes nothing and says so; a list modified elsewhere is reported |
| `LinkedLists.LinkedIterator.DoRemove` | src/collections/list/linked_list.c:932-951 | the pointers stand right after the last returned node is removed, whichever side of the cursor it was on |
| `ListIterators.RunBoth` | src/collections/list/linked_list.c:833-959 | with memory there, the two iterators give the same answers over a whole run, and end with the same contents and cursor, both as the cursor machine says, if and only if no addition of the run comes to an array that is full at its limit of growth; none does when the number of places needed, times one more than the factor, is within the largest capacity |
| `ListIterators.FewAdditionsFit` | src/collections/list/array_list.c:718-730 | that is so in particular for runs of any length whose additions, with the present size, do not exceed the limit |
| `ListIterators.PlacesSuffice` | src/collections/list/array_list.c:718-730 | so it is, for any limit above that bound, when the number of places needed times one more than the growth factor is within the largest capacity |
| `CursorLaws.NextAndBack` | src/collections/list/array_list.c:786-808 | a next answers the element behind the cursor and a previous straight after it the same one; at the end there is none |
| `CursorLaws.PreviousAndForth` | src/collections/list/array_list.c:786-808 | a previous answers the element before the cursor and a next straight after it the same one; at the beginning there is none |
| `CursorLaws.SetAfterNext` | src/collections/list/array_list.c:786-846 | a set after a next changes exactly the element just answered, a second set changes it again, and a previous answers what was set |
| `CursorLaws.SetAfterPrevious` | src/collections/list/linked_list.c:855-929 | a set after a previous changes exactly the element just answered, a second set changes it again, and a next answers what was set |
| `CursorLaws.RemoveAfterNext` | src/collections/list/array_list.c:786-866 | a remove after a next takes out exactly the element just answered; a next then answers the one that was behind it and a previous the one that was before it, or that there is none |
| `CursorLaws.RemoveAfterPrevious` | src/collections/list/linked_list.c:855-951 | so it is for a remove after a previous |
| `CursorLaws.RemoveAfterSet` | src/collections/list/linked_list.c:915-951 | a set in between does not change which element is taken out |
| `CursorLaws.AddedBetween` | src/collections/list/array_list.c:810-833 | an added element comes between the two parts of the old contents; a previous answers it, a next what was behind the cursor |
| `CursorLaws.NothingAnswered` | src/collections/list/array_list.c:835-871 | after an add, a remove or a reset there is nothing to set or remove, and neither changes anything |
| `CursorLaws.WholeTraversal` | src/collections/list/array_list.c:786-871 | from a reset on, as many nexts as there are elements answer them in order and one more answers that there is none; going back answers them in the opposite order |
| `CursorLaws.RunJoin` | src/collections/list/array_list.c:786-871 | a run in two parts is one run, so that these laws hold anywhere in a run |
| `LinkedLists.SplitChain` | src/collections/list/linked_list.c:1029-1041 | the double-speed pointer cuts a chain into two non-empty well-formed chains of the same nodes |
| `LinkedLists.MergeChains` | src/collections/list/linked_list.c:1043-1058 | relinks the nodes of two chains into one well-formed chain that holds the merge of their elements, no node lost or doubled and none changing its element |
| `LinkedLists.SortChain` | src/collections/list/linked_list.c:1017-1027 | relinks the same nodes into a well-formed chain that holds the stable sort of their elements |
| `LinkedLists.LinkedList.Sort` | src/collections/list/linked_list.c:1007-1015 | the list is well formed with the right head and tail, consists of the same nodes with their elements, and holds the stable sort |
| `LinkedLists.LinkedList.GetNode` | src/collections/list/linked_list.c:742-756 | the node at the index, walking from the nearer end |
| `LinkedLists.LinkedList.Add` | src/collections/list/linked_list.c:148-179 | inserts a fresh node at the index and counts a modification; index and memory errors leave the list as it was |
| `LinkedLists.LinkedList.RemoveNode` | src/collections/list/linked_list.c:767-786 | takes out the node, keeps the list well formed and every other node in place |
| `LinkedLists.LinkedList.Remove` | src/collections/list/linked_list.c:305-313 | removes the element at the index, returns it and counts a modification; other indices are refused and change nothing |
| `LinkedLists.LinkedList.Rotate` | src/collections/list/linked_list.c:496-520 | closing and reopening the ring rotates by any distance, with the same nodes, as the array list does |
| `Pipelines.StageStep` | src/util/sequence.c:483-518 | for every stage but a sort, one more element adds to the output exactly what the stage emits for it |
| `Pipelines.MapMeaning` | src/util/sequence.c:483-518 | a map applies its function to each element in order |
| `Pipelines.LimitAndSkip` | src/util/sequence.c:483-518 | what a limit lets through and what a skip by as many lets through make up the list, and the former is as long as the limit unless the latter is empty |
| `Pipelines.FilterMeaning` | src/util/sequence.c:483-518 | a filter judges each element by itself, whatever surrounds it, and take_while and drop_while are filters |
| `Pipelines.TakeWhileIsPrefix` | src/util/sequence.c:483-498 | take_while keeps just the leading elements that satisfy its test if and only if the test, once failed, does not hold again |
| `Pipelines.DropWhileIsSuffix` | src/util/sequence.c:483-498 | drop_while drops just the leading elements that satisfy its test under the same condition |
| `Pipelines.TakeWhileFilters` | src/util/sequence.c:483-498 | a list on which take_while lets an element through behind one it held back |
| `Pipelines.TravelOn` | src/util/sequence.c:401-420 | an element passed on by a stage is what the stage adds to its output list, and later stages have not seen it yet |
| `Pipelines.TravelEnds` | src/util/sequence.c:401-420 | an element held back by a stage, or buffered by a sort, leaves every later stage as if it had not come |
| `Pipelines.ThroughJoin` | src/util/sequence.c:401-437 | running stages in two groups is running them in one |
| `Pipelines.PhaseEnds` | src/util/sequence.c:401-420 | after a phase every stage of it has seen exactly the list that the stages before it make of the original source |
| `Pipelines.NothingLeft` | src/util/sequence.c:401-420 | when nothing reaches a sort the run ends although stages are left: they would have seen the empty list |
| `Pipelines.NextInLine` | src/util/sequence.c:422-437 | the next entry of the sort table is the sort that ended the phase |
| `Pointers.SameBucketByAddress` | src/core/pointer.h:19-21 | two addresses hash to the same bucket, of a power of two of them, exactly when they agree modulo their number, because the multiplier is odd |
| `PointerSets.TableGrows` | src/collections/set/hash_set.c:425-462 | the number of buckets that the distinct stage goes by is the hash table's: sixteen at first, and with each element what a table with load factor three quarters grows to, which can take one more exactly below three quarters of the largest number of buckets |
| `PointerSets.PointerSet.Contains` | src/collections/set/hash_set.c:304-313 | a walk along one chain finds an element equal to the given one if and only if some member is equal to it and hashes to the same bucket of the present table |
| `PointerSets.PointerSet.Rehash` | src/collections/set/hash_set.c:431-458 | every member is moved to the bucket of the doubled table that it hashes to |
| `PointerSets.PointerSet.Add` | src/collections/set/hash_set.c:140-163 | adds the element if and only if no equal one is found and there is memory and room, growing the table at its threshold; with memory it fails only beyond three quarters of the largest number of buckets |
| `Pipelines.DistinctBySet` | src/util/sequence.c:500-507 | adding the elements one after another to a new set of that kind keeps exactly the elements that the distinct stage lets through |
| `Pipelines.DistinctMeaning` | src/util/sequence.c:265-286 | the distinct stage, a hash set by address with the given equality, keeps just the first of equal elements if and only if the address of each repeated element agrees, modulo the number of buckets at that time, with that of the one it repeats |
| `Pipelines.FirstOfEachMeaning` | src/util/sequence.c:265-286 | keeping the first of equal elements leaves one for every element and no two equal ones |
| `Pipelines.CoherentMeets` | src/util/sequence.c:265-286 | it does so when equal elements have the same address |
| `Pipelines.TwoEqual` | src/util/sequence.c:500-507 | of two equal elements the second is dropped exactly when their addresses agree modulo sixteen |
| `Pipelines.DistinctMisses` | src/util/sequence.c:500-507 | two equal elements, at the addresses 8 and 16, that the distinct stage both lets through |
| `Pipelines.TerminalMeaning` | src/util/sequence.c:520-575 | what for_each, reduce, find, count and to_array make of the list that reaches them |
| `Pipelines.TerminalAnswers` | src/util/sequence.c:452-481 | what reduce, find, count and to_array answer about the list that reaches them |
| `Pipelines.FoldFirst` | src/util/sequence.c:520-575 | the fold that reduce is described by accumulates from the first element on, onto what it starts with |
| `Pipelines.ExtremumMeaning` | src/util/sequence.c:542-552 | max and min answer the last of the greatest or least elements, or nothing for an empty list, when no element is null or the comparator puts null before everything |
| `Pipelines.NullsMustYield` | src/util/sequence.c:542-552 | max or min is right on every list if and only if the comparator puts the null pointer before everything, as a null seen so far counts as nothing |
| `Pipelines.MaxLosesNull` | src/util/sequence.c:542-552 | a list of null and a smaller element of which the maximum is the smaller |
| `Pipelines.MatchMeaning` | src/util/sequence.c:452-468 | all_match, any_match and none_match answer the quantifier they are named for |
| `Pipelines.Sequence.Chain` | src/util/sequence.c:209-263 | appends an operation unless fifteen are chained already |
| `Pipelines.Sequence.ChainLimit` | src/util/sequence.c:235-242 | appends a limit unless it is negative or fifteen operations are chained already |
| `Pipelines.Sequence.ChainSkip` | src/util/sequence.c:244-251 | appends a skip unless it is negative or fifteen operations are chained already |
| `Pipelines.Sequence.ChainDistinct` | src/util/sequence.c:265-286 | appends the first distinct; further ones are accepted and ignored |
| `Pipelines.Sequence.ChainSort` | src/util/sequence.c:288-302 | appends a sort unless fifteen operations or five sorts are chained already or there is no memory |
| `Pipelines.Sequence.ExecuteOperation` | src/util/sequence.c:483-518 | updates the stage's memory for one element and passes it on, holds it back, buffers it, or aborts for want of memory or of room in the set of a distinct |
| `Pipelines.Sequence.PushElement` | src/util/sequence.c:401-420 | one element travels through the stages of the phase until one holds it back or the terminal operation receives it |
| `Pipelines.Sequence.ExecutePipelineOperations` | src/util/sequence.c:401-420 | a phase ends buffering at the next sort when something reached it, and exhausted otherwise, with all stages having seen the whole source |
| `Pipelines.Sequence.ReplacePipelineSource` | src/util/sequence.c:422-437 | the sorted buffer becomes the source of a phase that starts behind the sort |
| `Pipelines.Sequence.Process` | src/util/sequence.c:381-399 | with memory, and no more elements before a distinct than its set can hold, the terminal operation has received exactly the list the stages make of the source one after another, and each stage exactly the list of the stages before it, in one phase each; so it has whenever there is an answer |
| `Bits.MaskIsMod` | src/collections/map/hash_map.c:576-584 | masking with a power of two less one is the remainder, for negative numbers too |
| `Bits.NextPowerOfTwo` | src/collections/map/hash_map.c:517-523 | the least power of two not below the argument |
| `HashTables.PutNew` | src/collections/map/hash_map.c:236-241 | a new pair in front of its bucket's chain changes the lookups of equal keys only and keeps every key once and in its bucket |
| `HashTables.PutExisting` | src/collections/map/hash_map.c:215-224 | overwriting a pair's value changes the lookups of equal keys only |
| `HashTables.RemoveExisting` | src/collections/map/hash_map.c:299-322 | removing a pair from its chain changes the lookups of equal keys only |
| `HashTables.MoveHead` | src/collections/map/hash_map.c:544-556 | moving the head of a chain to the grown table changes no lookup and loses no pair |
| `HashMaps.ThresholdGrows` | src/collections/map/hash_map.c:525-529 | doubling the capacity raises the threshold exactly when it has not reached its ceiling |
| `HashMaps.BelowCeiling` | src/collections/map/hash_map.c:525-529 | for load factors below two the ceiling is out of reach while the capacity can double |
| `HashMaps.ThresholdStuck` | src/collections/map/hash_map.c:525-529 | with a load factor of two the last doubling does not raise the threshold |
| `HashMaps.OverfullMap` | src/collections/map/hash_map.c:215-244 | storing one more number than the largest capacity in a new map with load factor two, each with all the memory it needs, takes its size above its threshold |
| `HashMaps.PushFront` | src/collections/map/hash_map.c:236-241 | a loose entry becomes the head of a bucket, the other chains untouched |
| `HashMaps.MoveEntry` | src/collections/map/hash_map.c:544-556 | relinks one entry into the grown buckets and leaves the remaining chains well formed |
| `HashMaps.Rehash` | src/collections/map/hash_map.c:544-556 | every entry is relinked into the grown buckets, each key once and in its bucket, no lookup changed |
| `HashMaps.HashMap.GetEntry` | src/collections/map/hash_map.c:576-584 | finds the entry of an equal key in the chain of its bucket, exactly when the key is there |
| `HashMaps.HashMap.EnsureCapacity` | src/collections/map/hash_map.c:531-562 | keeps every lookup; it succeeds if and only if the size is below the threshold, or there is memory and twice the buckets are within the limit, and then the buckets double exactly when the threshold is reached |
| `HashMaps.HashMap.Put` | src/collections/map/hash_map.c:215-244 | the map becomes the old one with the key set to the value; it is unchanged if and only if a new key finds no memory, or the threshold is reached at the largest capacity, which does not happen while the map is half empty. The buckets double exactly when a new key comes at the threshold and they can. A new key leaves the size within the threshold if and only if the old size was below the largest capacity, always so for load factors below two |
| `HashMaps.HashMap.Remove` | src/collections/map/hash_map.c:299-322 | the map becomes the old one without the key; the value is returned and the size counts only a key that was there |
| `HashMaps.HashMap.Compute` | src/collections/map/hash_map.c:171-181 | the key's value becomes what the function makes of the old one, a null result removing it; the size counts what came or went, and with a load factor below two stays within the threshold |
| `HashMaps.HashMap.Merge` | src/collections/map/hash_map.c:203-213 | the key's value becomes the given one or its combination with the old one, a null result removing it; a stored null counts as absent; the size counts what came or went, and with a load factor below two stays within the threshold |
| `HashMaps.RunAll` | src/collections/map/hash_map.c:171-322 | over any run of puts, removals, computes and merges, whatever memory each finds, the table answers as the mathematical map does after those that were done; size, buckets and which ones are done are as counted from the memory found, and with a load factor below two the size never exceeds the threshold; with memory each is done while the map is half empty |
| `HashMaps.WhatIsDone` | src/collections/map/hash_map.c:171-322 | in such a run a command is done if and only if it leaves nothing under its key, or finds the key there after the commands before it, or there is memory for an entry and, at the threshold, for buckets that can still double |
| `SetAlgebra.SweepStep` | src/collections/set/hash_set.c:215-230 | deciding about one more node of a sweep keeps the nodes before it that are not doomed and all nodes behind it, in order |
| `HashSets.SweepNext` | src/collections/set/hash_set.c:215-230 | one round of the deleting sweep keeps the trailing pointer on the last node kept |
| `HashSets.SweepBucket` | src/collections/set/hash_set.c:198-247 | leaves exactly the nodes that are not doomed, in order, and counts the others |
| `HashSets.Sweep` | src/collections/set/hash_set.c:198-247 | remove_all, remove_if and retain_all leave exactly the elements that are not doomed and return the number removed |
| `HashSets.AddAll` | src/collections/set/hash_set.c:165-182 | with enough memory and the set half empty afterwards, it contains what it contained and every delivered element; the changed flag says whether it grew, and otherwise its members are the same |
| `HashSets.Union` | src/collections/set/hash_set.c:632-639 | exactly the union of the inputs and of what the result held before, with enough memory and a result that stays half empty |
| `HashSets.Intersection` | src/collections/set/hash_set.c:641-648 | under the same condition exactly the elements of the first input or the old result that are in the second input |
| `HashSets.Difference` | src/collections/set/hash_set.c:650-657 | under the same condition exactly the elements of the first input or the old result that are not in the second input |
| `HashSets.Clone` | src/collections/set/hash_set.c:346-369 | a set of its own with the same members, when each finds memory |
| `HashSets.KeysFound` | src/collections/set/hash_set.c:363-367 | walking the buckets meets exactly the members, as many as the size says |
| `HashSets.SymmetricDifference` | src/collections/set/hash_set.c:659-679 | for any content of the result, which is cloned: with enough memory, and half empty with both inputs added, exactly the elements of either the old result and the first input, or the second input, but not both; when the clone misses an element there is no result and nothing changes |
| `Temporal.YearDay` | src/util/temporal.c:121-131 | the summing loop gives the days of the earlier months plus the day; invalid date-times are refused |
| `Temporal.MonthsFillYear` | src/util/temporal.c:18-27 | the twelve months make up the year |
| `Temporal.DayNumberAddsUp` | src/util/temporal.c:248-268 | the closed day count is a constant plus the lengths of the earlier years and months plus the day |
| `Temporal.WeekDayAdvances` | src/util/temporal.c:95-119 | Zeller's congruence gives the closed day count plus three modulo seven, plus one |
| `Temporal.SecondsFollowOrder` | src/util/temporal.c:139-175 | the field-by-field order is the order of the seconds, and only equal date-times have equal seconds |
| `Temporal.SecondsInOrder` | src/util/temporal.c:248-268 | counted on over all years, the seconds order all date-times of the calendar and tell them apart |
| `Temporal.Ticked` | src/util/temporal.c:248-268 | the next second, carried over minutes to years, is a valid date-time one second later |
| `Temporal.NoGap` | src/util/temporal.c:248-268 | every number of seconds from the first valid date-time to the last is that of a valid one |
| `Temporal.Plus` | src/util/temporal.c:188-242 | the month is carried over to the year and the day clamped to its end, smaller units are added to their field, and the result is what mktime makes of that; refused when that fails or its year is out of range |
| `Temporal.InMonthMeans` | src/util/temporal.c:188-216 | the date-time is in the month asked for, on its own day or on the last one of the month if that is earlier, at the same time of day |
| `Temporal.PlusIsExact` | src/util/temporal.c:188-242 | where mktime keeps the number of seconds, years and months lead to the month that many months on, clamped to its end, and weeks to seconds to the date-time exactly that many seconds away |
| `Temporal.DifferenceIsExact` | src/util/temporal.c:282-292 | that many months from the first date-time do not pass the other and one more in the same direction does |
| `Temporal.YearsAreExact` | src/util/temporal.c:282-292 | so is the difference in years: that many years from the first date-time do not pass the other and one more in the same direction does |
| `Temporal.DifferenceRounds` | src/util/temporal.c:294-304 | the difference in weeks to seconds counts whole units: what is left over goes the same way and is less than one unit |
| `Temporal.UnitsNest` | src/util/temporal.c:294-304 | seven days make a week, and so on down to the second |
| `Temporal.DayLater` | src/util/temporal.c:248-304 | the same time on the next day of a month is one day later |
| `Temporal.DifferenceUndoesPlus` | src/util/temporal.c:188-304 | the difference to a date-time reached by adding in any unit is the number added, clamped days included, where mktime keeps the number of seconds |
| `Temporal.Difference` | src/util/temporal.c:278-304 | the exact difference in the unit: years and months count whole months, years as a twelfth rounded towards zero; other units divide the seconds, rounded towards zero; when mktime fails the months are those of the fields alone, and an invalid date-time is reported |
| `PriorityQueues.SwapUp` | src/collections/priority_queue.c:367-384 | swapping an element that is greater than its parent moves the only violation up, and without one the array is a heap |
| `PriorityQueues.SwapDown` | src/collections/priority_queue.c:386-412 | swapping an element with its larger child moves the only violation down, and without one the array is a heap |
| `PriorityQueues.PriorityQueue.Enqueue` | src/collections/priority_queue.c:125-137 | keeps the heap order and adds the element; it leaves the queue if and only if the buffer is full and there is no memory or the growth factor is refused at its size; with memory it succeeds as long as the size times one more than the factor is within the largest capacity |
| `PriorityQueues.PriorityQueue.Dequeue` | src/collections/priority_queue.c:168-187 | keeps the heap order and removes one greatest element; an empty queue is reported |
| `PriorityQueues.Drain` | src/collections/priority_queue.c:125-187 | enqueueing everything and dequeueing it again gives a non-increasing permutation, up to the limit of growth, and in any case when the number of elements times one more than the factor is within the largest capacity |
| `Deques.MaskWraps` | src/collections/deque.c:125-147 | masking wraps a position around both ends, also from before position 0 |
| `Deques.Deque.EnsureCapacity` | src/collections/deque.c:434-459 | contents are kept even when they wrap, and the capacity stays a power of two; it fails if and only if the buffer does not suffice and there is no memory or the request is above the limit |
| `Deques.Deque.AddFirst` | src/collections/deque.c:125-135 | the element comes first; nothing changes if and only if the buffer is full and there is no memory or it is at the limit |
| `Deques.Deque.AddLast` | src/collections/deque.c:137-147 | the element comes last; nothing changes if and only if the buffer is full and there is no memory or it is at the limit |
| `Deques.Deque.RemoveFirst` | src/collections/deque.c:207-221 | the first element goes; an empty deque is reported |
| `Deques.Deque.RemoveLast` | src/collections/deque.c:223-239 | the last element goes; an empty deque is reported |
| `Deques.Deque.Reverse` | src/collections/deque.c:296-306 | the contents in the opposite order, in place |
| `Allocators.AlignedSize` | src/util/allocators.c:116-126 | the least multiple of the alignment that holds the block and a pointer; 0 exactly when that overflows |
| `Allocators.MemoryArena.Alloc` | src/util/allocators.c:58-75 | aligned blocks that never overlap; fails exactly when padding and block do not fit, changing nothing |
| `Allocators.BlockAddresses` | src/util/allocators.c:128-135 | the address test accepts exactly the addresses of blocks |
| `Allocators.BlocksApart` | src/util/allocators.c:137-184 | different blocks do not overlap |
| `Allocators.BlockInBuffer` | src/util/allocators.c:137-184 | every block is aligned and lies in the buffer |
| `Allocators.BlockCount` | src/util/allocators.c:137-184 | there are exactly as many blocks as the capacity says |
| `Allocators.NewPool` | src/util/allocators.c:137-184 | refused for empty pools or blocks, when the sizes overflow, and when there is no memory, and only then; a new pool has no block outstanding |
| `Allocators.MemoryPool.constructor` | src/util/allocators.c:165-173 | all blocks are threaded onto the free list, each once |
| `Allocators.MemoryPool.Alloc` | src/util/allocators.c:194-206 | free and outstanding blocks always make up the pool; fails exactly when every block is outstanding and otherwise hands out one that was not |
| `Allocators.MemoryPool.Dealloc` | src/util/allocators.c:208-218 | puts an outstanding block back and refuses exactly the addresses that are no block |
| `Allocators.MemoryPool.Write` | src/util/allocators.c:194-206 | what the owner of a block writes to it cannot damage the free list |
| `Strings.ReplacedLength` | src/core/string.c:395-402 | the length computed from the counted matches is the length of the result |
| `Strings.CountMatches` | src/core/string.c:395-401 | the counting pass finds the greedy leftmost non-overlapping matches |
| `Strings.CopyReplacing` | src/core/string.c:408-419 | the copying pass finds the same matches, ends exactly at the computed length and yields the leftmost replacement |
| `Strings.ReplaceSubstring` | src/core/string.c:391-421 | the result is the recursive leftmost replacement; there is none exactly for an empty target or without memory |
| `Strings.NothingReplaced` | src/core/string.c:391-421 | a string without the target is unchanged |
| `Strings.ReplacedByItself` | src/core/string.c:391-421 | replacing a target by itself changes nothing |
| `Strings.ReplacedFirst` | src/core/string.c:391-421 | with the leftmost match anywhere, what is before it stays, the match is replaced, and what is behind it is dealt with on its own |
| `Strings.SplitRoundTrip` | src/core/string.c:483-510 | joining the pieces gives the string back, and no piece contains the delimiter |
| `Strings.Split` | src/core/string.c:483-510 | the counted slots are filled exactly with the pieces between the delimiters; there is no result exactly when memory for the array or one of the pieces is missing |

## Left out

- Tree maps and sets: iterators, `slice`, heads and tails, and `equals`.
- Lists: bulk insertion, `swap`, `set`, searching, shuffling, cloning and the linked list's sorts that swap elements in place.
- LinkedLists.LinkedIterator.Do: several iterators over one list; the linked list's iterator does not count its own additions as modifications.
- Sequences: `collect` into another collection, generated sources, and releasing resources. A source is a finite list. A buffered sort is the function that the array list's sort is proved to compute, not an array list object. The hash set of a distinct is its list of elements and the number of buckets they make it have, which `Pipelines.DistinctBySet` ties to a set with buckets; their chains are lists of elements, not linked nodes, and adding a batch while its memory fails part-way is not modelled.
- Pipelines.Sequence.Chain: stands for the operations without a check of their own; limits and skips, distincts and sorts have methods of their own. Null arguments, which the source refuses, cannot be written down in the model.
- Hash maps: iterators, `put_if_absent`, `compute_if_absent`, `compute_if_present`, `replace`, `clone` and `equals`.
- HashSets.AddAll: the inputs of the set algebra, here and for tree sets, are given by the elements their iterator delivers and their membership test; how a hash set's own iterator walks its chains is not modelled.
- Temporal: parsing, formatting and the clock. `mktime` is a parameter; that it keeps the number of seconds (`Normalises`) is true of zones whose clocks do not change.
- Temporal.DifferenceUndoesPlus: zones with clock changes, where adding hours and taking the difference is no round trip.
- Allocators.MemoryPool.Dealloc: requires a block that is out, as the source asks of its callers; it does not detect a block that is free already.
- Modification counts are kept for lists and hash maps, where something reads them in the model, and not elsewhere.
- PriorityQueues.PriorityQueue.Dequeue: the sift-down reads children only after the bounds check.
- Allocators: the callbacks that wrap them; an arena's memory contents.
- Strings: everything but substring replacement and splitting; characters are not bytes.
- Arithmetic overflow of sizes and counters, null-argument checks, printing, and callbacks with side effects on the container they are called from.
