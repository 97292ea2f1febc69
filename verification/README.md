# boltons core, modelled in Dafny

This project models the core of boltons, a collection of small Python utility modules. It proves properties of that model. Each modelled source file has one Dafny module:

- `CacheUtils` and `CacheObjects` (cacheutils.dfy) model `boltons/cacheutils.py`:
  - `BasicCache`, a least-recently-inserted read-through cache: a dictionary plus a queue of keys, filled by `on_miss`.
  - `LRU`, a bounded map. Its entries sit in a circular doubly linked list with a sentinel root. The links are modelled as an arena: sequences `prev`, `next`, `key` and `result` indexed by link number, with a ghost recency order. The classes `CacheObjects.LRU` and `CacheObjects.BasicCache` update these fields in place. Each method is proved to compute what the matching `CacheUtils` function says.
- `SetUtils` and `SetObjects` (setutils.dfy, setobjects.dfy) model `IndexedSet` of `boltons/setutils.py`: an insertion-ordered set made of an item-to-slot map, a slot list with dead slots, and a sorted list of dead slots. It has lazy deletion, `_cull`, `_compact`, the set algebra, indexing and `pop`.
- `QueueUtils` (queueutils.dfy) models `HeapPriorityQueue` of `boltons/queueutils.py`: a binary min-heap of entries `[-priority, count, task]`, a task-to-entry map and lazy removal. `heapq` is modelled as swap-based sifting.
- `TreeUtils` (treeutils.dfy) models the AVL `Tree` of `boltons/treeutils.py`:
  - insertion, where equal keys go right;
  - deletion, with in-order successor replacement;
  - stack-driven rebalancing;
  - in-order iteration and membership.
- `ListUtils` (listutils.dfy) models `BarrelList` of `boltons/listutils.py`: a list stored as a list of sublists, with index translation, sublist splitting, and `insert`, `append`, `extend`, `pop`, `count`, `__contains__`, `__getitem__` and `sort`.
- `TableUtils` (tableutils.dfy) models `Table` of `boltons/tableutils.py`:
  - header inference;
  - width fixing and in-place padding of short rows;
  - the column widths and line layout of `to_text`.
- `FileUtils` (fileutils.dfy) models `FilePerms` of `boltons/fileutils.py`: the `user`, `group` and `other` rwx strings and the nine permission bits (the S_IRUSR … S_IXOTH bits of POSIX `<sys/stat.h>`), as `bv9`.
- `NamedUtils` (namedutils.dfy) models the field-name splitting, renaming and validation of `namedtuple`/`namedlist` in `boltons/namedutils.py`, and the `_make`, `_asdict` and `_replace` of the generated classes. `Make` and `Replace` are these methods as the namedtuple class has them; `MakeAsWritten` and `ReplaceAsWritten` add the namedlist versions, which differ (see "## Findings").
- `IterUtils` (iterutils.dfy) and `RootIterUtils` (iterutils_root.dfy) model the `split`/`split_iter` and `chunked`/`chunked_iter` of `boltons/iterutils.py`, and the older top-level `iterutils.py` `split`.
- `StrUtils` (strutils.dfy) models the following parts of `boltons/strutils.py`:
  - `camel2under` and `under2camel`;
  - `split_punct_ws`;
  - `slugify` without `ascii`;
  - `cardinalize`, `pluralize`, `singularize` and `_match_case`.
- `FormatUtils` (formatutils.dfy) models the following parts of `boltons/formatutils.py`:
  - `construct_format_field_str`;
  - the anonymous-field numbering of `infer_positional_format_args`;
  - the `BaseFormatField` class.
- `MathUtils` (mathutils.dfy) models `ceil_from_list` and `floor_from_list` over exact reals. `TimeUtils` (timeutils.dfy) models the bucketing of `relative_datetime` over integer days and seconds.
- `Wrappers`, `PyList` and `PyStr` are shared helpers:
  - `Option`, `Result` and the Python exception kinds;
  - list flattening and filtering;
  - ASCII string operations (`lower`, `upper`, `capitalize`, `strip`, `split`, `center`, decimal formatting).

Where the code does something other than what its documentation or the obvious intent says, the model follows the code. The "## Findings" section gives each such case both ways: as written, and as evidently intended. The functions and lemmas use the intended version. The methods of these classes instead follow the code as written, and the intended versions stand beside them:

- `FileUtils.FilePerms`: `from_int` and the property assignment. The intended versions are `FromIntFixedValue` and `AssignFixed`.
- `ListUtils.BarrelList`: `insert`, `pop`, `sort` and `__getitem__`. The intended versions are `InsertFixed`, `SortFixed` and `TranslateChecked`, the last for the index translation that `pop` and `__getitem__` share.
- `QueueUtils.HeapPriorityQueue`: `add` of a task already queued. The intended version is the method `AddReplacing`.
- `TableUtils.Table`: the headers kept by the constructor. The intended version is `HeadersOfFixed`.

The classes `CacheObjects.LRU`, `CacheObjects.BasicCache`, `SetObjects.IndexedSet`, `TreeUtils.Tree` and `FormatUtils.BaseFormatField` follow the intended versions. Two of these concern the documentation directly:

- The `LRU.__setitem__` path at capacity is described as installing the least-recent link as the new sentinel, but the code never assigns `self.root`.
- `split_iter` is documented as based on `str.split()`, but with `maxsplit=0` it yields a group that holds the source as one element.

Python exceptions are modelled as `Err` values of `Result`. Where an exception interrupts a method part-way, the state changed before it is kept.

## Model

| member | source | states |
|---|---|---|
| MathUtils.CeilFromList | boltons/mathutils.py:5-23 | succeeds exactly when some element passes the filter (`y >= x`, or `y > x` without allow_equal); the result is such an element and is no larger than any other; otherwise ValueError (min of an empty sequence) |
| MathUtils.FloorFromList | boltons/mathutils.py:26-44 | succeeds exactly when some element passes the filter (`y <= x`, or `y < x`); the result is such an element and no smaller than any other; otherwise ValueError |
| MathUtils.MemberIsOwnCeilAndFloor | boltons/mathutils.py:23-44 | an element of the list is its own ceiling and its own floor when equality is allowed |
| MathUtils.SameElementsSameCeil | boltons/mathutils.py:23 | the ceiling depends only on which numbers the list holds, not on order or repetition |
| MathUtils.SameElementsSameFloor | boltons/mathutils.py:44 | the floor depends only on which numbers the list holds |
| MathUtils.CeilReached | boltons/mathutils.py:23 | any element passing the filter makes the ceiling exist and bounds it from above |
| MathUtils.FloorReached | boltons/mathutils.py:44 | any element passing the filter makes the floor exist and bounds it from below |
| MathUtils.CeilBelowAllIsMinimum | boltons/mathutils.py:23 | for x at or below every element the ceiling is the minimum of the list |
| MathUtils.FloorAboveAllIsMaximum | boltons/mathutils.py:44 | for x at or above every element the floor is the maximum of the list |
| MathUtils.CeilExamples | boltons/mathutils.py:14-20 | the docstring examples: 3.5 → 4, 4 → 4, and 4 without equality → 6 |
| MathUtils.CeilAboveAll | boltons/mathutils.py:23 | a value above every element raises ValueError |
| MathUtils.FloorExamples | boltons/mathutils.py:35-41 | the docstring examples: 3.5 → 2.5, 2.5 → 2.5, and 2.5 without equality → 1.5 |
| MathUtils.FloorBelowAll | boltons/mathutils.py:44 | a value below every element raises ValueError |
| TimeUtils.RelativeDatetime | boltons/timeutils.py:6-29 | a difference of more than seven days, or a negative one, gives the absolute date text; from one to seven days the message counts whole days; "just now" exactly for a same-day difference under five seconds |
| TimeUtils.DaysMessage | boltons/timeutils.py:13-16 | from one to seven days the message counts whole days whatever the seconds: "1 day ago" for one day, "<days> days ago" for two to seven |
| TimeUtils.SameDayUsesLargestUnit | boltons/timeutils.py:18-29 | a same-day difference of at least five seconds is counted in seconds below a minute, in whole minutes below an hour, and in whole hours otherwise |
| TimeUtils.MinutesMessage | boltons/timeutils.py:22-25 | between one minute and one hour the message counts whole minutes (integer division by 60) |
| TimeUtils.HoursMessage | boltons/timeutils.py:26-29 | from one hour on the message counts whole hours (integer division by 3600) |
| TimeUtils.DescribeInjective | boltons/timeutils.py:14-29 | two counted messages are equal only for the same count and unit |
| TimeUtils.CountedMessage | boltons/timeutils.py:12-29 | reading a counted message back gives its bucket: days only for a day or more, and for each unit the count is the truncated quotient and below the next unit |
| CacheUtils.Empty | boltons/cacheutils.py:61-67 | a new LRU cache has a root linked to itself and an empty dictionary, and satisfies the ring invariant with no entries |
| CacheUtils.SpliceAppends | boltons/cacheutils.py:79-81 | splicing a link in before the root puts it at the most recent end of the ring and keeps every other link in order |
| CacheUtils.UnlinkRemoves | boltons/cacheutils.py:115-117 | unlinking the i-th link leaves the ring of the other links in the same order |
| CacheUtils.RotateRoot | boltons/cacheutils.py:94 | reading the same ring from the link after the root makes the old root the most recent link |
| CacheUtils.Items | boltons/cacheutils.py:57-58 | the entries listed in recency order have one entry per link of the order, each with that link's key and result |
| CacheUtils.ValueMap | boltons/cacheutils.py:164-165 | the value map has exactly the keys of the dictionary |
| CacheUtils.SetItemWith | boltons/cacheutils.py:73-103 | setting keeps every link and dictionary value inside the arena; below `max_size` it succeeds and appends a link for the key; at capacity it raises KeyError exactly when the emptied link's old key is None or no longer in the dictionary, leaving the dictionary as it was, and otherwise drops that key and maps the new key to the old root |
| CacheUtils.SetItem | boltons/cacheutils.py:73-103 | __setitem__ with the new root remembered: below max_size a new link holding the key and value is added under the key; at capacity no link is added, the old root takes the key and the next link becomes the root; on success the key is in the dictionary |
| CacheUtils.SetItemAsWritten | boltons/cacheutils.py:73-103 | __setitem__ as written: the same below max_size; at capacity the old root takes the key but stays the root, since self.root is never assigned |
| CacheUtils.GetItem | boltons/cacheutils.py:105-123 | __getitem__ succeeds exactly for a key in the dictionary and returns its stored result, counting a hit and leaving dictionary, keys and results alone; a miss counts a miss, changes nothing else and raises KeyError |
| CacheUtils.DelItem | boltons/cacheutils.py:57-58 | the inherited del succeeds exactly for a key in the dictionary and only removes that key from the dictionary, leaving every link; otherwise KeyError |
| CacheUtils.SetFreshBelow | boltons/cacheutils.py:77-82 | below max_size a fresh key gets a new link: the entries gain (k, v) at the most recent end and the invariant holds |
| CacheUtils.SetFreshFull | boltons/cacheutils.py:83-102 | at max_size a fresh key reuses the old root: the least recent entry is dropped, (k, v) is added at the most recent end, and the size stays |
| CacheUtils.GetHit | boltons/cacheutils.py:105-123 | a hit returns the stored result, moves that entry to the most recent end, keeps the others in order and adds one to hit_count |
| CacheUtils.GetMiss | boltons/cacheutils.py:107-111 | a miss raises KeyError, adds one to miss_count and changes no entry |
| CacheUtils.GetDefault | boltons/cacheutils.py:127-132 | get returns the stored result on a hit and the default on a miss, counting both a miss and a soft miss |
| CacheUtils.Eq | boltons/cacheutils.py:154-159 | two caches are equal exactly when their value maps are equal |
| CacheUtils.EqIgnoresRecency | boltons/cacheutils.py:154-165 | a lookup leaves a cache equal to what it was: equality ignores order, counters and max_size |
| CacheUtils.SetBelowValueMap | boltons/cacheutils.py:77-82 | below max_size setting any key succeeds and maps it to the new value |
| CacheUtils.SetItemKeys | boltons/cacheutils.py:73-103 | setting a key adds no key other than it to the dictionary |
| CacheUtils.DelItemValueMap | boltons/cacheutils.py:58 | the inherited del succeeds exactly when the key is present and removes only that key from the value map |
| CacheUtils.SetAll | boltons/cacheutils.py:139-141 | the mapping branch of update sets each key in turn and stops at the first error |
| CacheUtils.SetPairs | boltons/cacheutils.py:142-149 | the pairs branch deletes a present key the first time it comes up, then sets it |
| CacheUtils.Update | boltons/cacheutils.py:134-152 | update with the cache itself changes nothing; otherwise it is the mapping or the pairs branch |
| CacheUtils.SetAllFresh | boltons/cacheutils.py:134-152 | update with fresh distinct keys leaves the last max_size entries of the old entries followed by the new ones, in order |
| CacheUtils.SetPairsFresh | boltons/cacheutils.py:142-149 | with fresh keys the pairs branch deletes nothing and gives the same cache as the mapping branch |
| CacheUtils.KeyInItems | boltons/cacheutils.py:57-58 | under the invariant every dictionary key is listed in the entries, at the position of its link |
| CacheUtils.ItemsInValueMap | boltons/cacheutils.py:164-165 | under the invariant every entry is a key of the value map with its stored result |
| CacheUtils.FourKeysIntoThree | tests/test_cacheutils.py:14-19 | LRU(max_size=3) given four distinct keys keeps exactly the last three |
| CacheUtils.SecondEvictionFailsAsWritten | boltons/cacheutils.py:83-102 | as written, the third set into LRU(max_size=1) raises KeyError; with the new root remembered all three sets succeed |
| CacheUtils.RepeatedKeyLeavesStaleLink | boltons/cacheutils.py:75-82 | setting a present key below max_size leaves its old link in the ring, one link more than keys |
| CacheUtils.DelLeavesStaleLink | boltons/cacheutils.py:58 | the inherited del leaves the ring unchanged, one link more than keys |
| CacheUtils.HitIgnoresOnMiss | boltons/cacheutils.py:31 | a present key is read from the dictionary: on_miss plays no part and nothing changes |
| CacheUtils.MissFailureStoresNothing | boltons/cacheutils.py:32 | when on_miss raises, nothing is stored or queued |
| CacheUtils.MissStores | boltons/cacheutils.py:31-38 | a miss returns and stores on_miss's value, enqueues the key and drops the earliest inserted key once more than size are queued, keeping the invariant |
| CacheUtils.Missing | boltons/cacheutils.py:31-38 | __missing__ returns what on_miss returned; an exception from on_miss leaves the cache as it was; below size the key and value are stored and the key enqueued |
| CacheUtils.Lookup | boltons/cacheutils.py:31-51 | cache[key] of a stored key returns its value and changes nothing; otherwise any value returned is on_miss's and an on_miss exception changes nothing |
| CacheUtils.EnqueueValid | boltons/cacheutils.py:33-34 | storing and enqueueing an absent key keeps the queue and the dictionary in step |
| CacheUtils.EvictValid | boltons/cacheutils.py:35-37 | dropping the oldest key of a queue one over capacity restores the invariant |
| CacheUtils.LookupAll | boltons/cacheutils.py:174-180 | looking up keys in turn keeps the size and returns one value per key, stopping at the first error |
| CacheUtils.FillKeepsLast | boltons/cacheutils.py:31-38 | looking up distinct absent keys keeps the last size of them and returns what on_miss gave for each |
| CacheUtils.FiftyTwoIntoTen | tests/test_cacheutils.py:22-27 | fifty-two distinct letters into a cache of size ten leave ten keys, each looked up value being on_miss's |
| CacheObjects.LRU.SetItem | boltons/cacheutils.py:73-103 | the cache's new state and result are those of SetItem on the old state |
| CacheObjects.LRU.GetItem | boltons/cacheutils.py:105-123 | the new state and result are those of GetItem on the old state |
| CacheObjects.LRU.Get | boltons/cacheutils.py:127-132 | the new state and result are those of Get on the old state |
| CacheObjects.LRU.DelItem | boltons/cacheutils.py:58 | the new state and result are those of the inherited del on the old state |
| CacheObjects.LRU.Update | boltons/cacheutils.py:134-152 | the new state and result are those of Update on the old state |
| CacheObjects.LRU.SetEach | boltons/cacheutils.py:139-141 | the loop over the mapping's keys ends in the state SetAll gives |
| CacheObjects.LRU.SetPairsLoop | boltons/cacheutils.py:142-149 | the loop over the pairs ends in the state SetPairs gives |
| CacheObjects.LRU.Equals | boltons/cacheutils.py:154-159 | two cache objects compare equal exactly when their value maps are equal (the same object trivially so) |
| CacheObjects.BasicCache.Lookup | boltons/cacheutils.py:31-51 | the new state and result are those of Lookup on the old state |
| CacheObjects.BasicCache.Missing | boltons/cacheutils.py:31-38 | the new state and result are those of Missing on the old state |
| CacheUtils.Get | boltons/cacheutils.py:125-132 | `get` never raises and keeps the arena well formed: a hit returns the stored result; a miss returns the default and counts one more miss and one more soft miss |
| SetUtils.EmptyTidy | boltons/setutils.py:30-33 | a new IndexedSet satisfies the invariant and iterates nothing |
| SetUtils.ValidElements | boltons/setutils.py:75-76 | under the invariant iteration yields each member exactly once and nothing else |
| SetUtils.ValidLength | boltons/setutils.py:69-70 | len counts the dictionary, equals the number of items iterated, and the slot list holds one more slot per dead index |
| SetUtils.AddKeeps | boltons/setutils.py:105-108 | add keeps the invariant, appends an unseen item at the end of the iteration order and leaves a member where it is |
| SetUtils.Dedup | boltons/setutils.py:16-19 | the deduplicated sequence has no repeats, only items of the input, and each item at its first occurrence |
| SetUtils.AddAllKeeps | boltons/setutils.py:110-112 | update appends, in first-occurrence order, the items that are not yet members |
| SetUtils.FromSeqElements | boltons/setutils.py:30-35 | IndexedSet(xs) iterates the items of xs in first-occurrence order, each once |
| SetUtils.RepeatedPrefixIterates | boltons/setutils.py:22-24 | IndexedSet(range(4) + range(8)) iterates 0..7: repeating a prefix adds nothing |
| SetUtils.Insort | boltons/setutils.py:93 | inserting into the dead list adds exactly the new index |
| SetUtils.InsortSorted | boltons/setutils.py:93 | inserting a new index into a strictly ascending dead list keeps it strictly ascending |
| SetUtils.UnlistValid | boltons/setutils.py:92-94 | taking a member out of the dictionary and turning its slot into the sentinel keeps the invariant |
| SetUtils.UnlistKeeps | boltons/setutils.py:92-94 | taking a member out keeps the invariant and removes exactly that item from the iteration order, keeping the others in order |
| SetUtils.TrailRunEnds | boltons/setutils.py:61-66 | the intended trailing run of dead indices ends the slot list and cannot be extended |
| SetUtils.CompactKeeps | boltons/setutils.py:37-49 | compaction as intended keeps the members and their order and leaves no dead slot |
| SetUtils.TrimKeeps | boltons/setutils.py:61-66 | trimming the trailing dead slots keeps the members and their order and leaves a live last slot |
| SetUtils.CullKeeps | boltons/setutils.py:51-66 | culling as intended keeps the members, their order and the dictionary's keys, and leaves the last slot live |
| SetUtils.RemoveSpec | boltons/setutils.py:90-97 | remove takes a member out of the iteration order, keeps the others in order and shrinks len by one; a non-member raises KeyError and changes nothing |
| SetUtils.DiscardSpec | boltons/setutils.py:99-103 | discard removes the item if present and otherwise changes nothing, never failing |
| SetUtils.CullTrimAsWritten | boltons/setutils.py:61-66 | the trim loop as written compares the ascending list backwards: it raises IndexError with one dead slot, or removes exactly one slot however long the trailing run is |
| SetUtils.RemoveNewestFailsAsWritten | boltons/setutils.py:90-97 | removing the newest of two or more members with no dead slots raises IndexError as written, while the intended remove succeeds |
| SetUtils.ShiftFails | boltons/setutils.py:43-47 | while the last slot is live the copying loop as written runs its dead-index counter off the list |
| SetUtils.CompactFailsAsWritten | boltons/setutils.py:37-49 | compaction as written raises IndexError whenever a live slot follows the last dead one, leaving the dictionary and the dead list as they were |
| SetUtils.CompactStaleAsWritten | boltons/setutils.py:37-49 | when compaction as written finishes, the dictionary still names the items' old slots |
| SetUtils.PyGet | boltons/setutils.py:182 | list indexing succeeds exactly for -len <= i < len and then returns that element |
| SetUtils.BisectLeft | boltons/setutils.py:180 | bisect_left counts the elements below x in an ascending list |
| SetUtils.SlotFound | boltons/setutils.py:177-184 | the slot found by passing the dead indices on the way holds the i-th member |
| SetUtils.Nth | boltons/setutils.py:177-184 | the item at that slot is the i-th member in iteration order |
| SetUtils.GetItem | boltons/setutils.py:177-184 | s[index] as intended is the index-th member, counting from the end for a negative index, and IndexError out of range |
| SetUtils.GetItemSentinelAsWritten | boltons/setutils.py:177-184 | once the first slot is dead, s[0] as written returns the sentinel while the intended s[0] is the first remaining member |
| SetUtils.TakeLastKeeps | boltons/setutils.py:189-191 | taking the last slot of a tidy set returns the last member and removes just it |
| SetUtils.PopLastSpec | boltons/setutils.py:186-200 | pop() returns the last member and drops it from the iteration order; IndexError on an empty set |
| SetUtils.PopIndexSpec | boltons/setutils.py:186-200 | pop(i) for another index returns s[i] and removes it as remove does; an index out of range raises IndexError and changes nothing |
| SetUtils.PopFirstFailsAsWritten | boltons/setutils.py:192-200 | pop(0) as written unlists the first member and then raises UnboundLocalError; the intended pop(0) returns that member |
| SetUtils.PopBeforeStartAsWritten | boltons/setutils.py:186-200 | pop(-(len(s)+1)) on a set without dead slots, as written, turns into slot -1: it unlists the newest member, puts -1 in front of the dead list and raises UnboundLocalError, while the intended pop raises IndexError and changes nothing |
| SetUtils.PopFarBeforeStartAsWritten | boltons/setutils.py:186-200 | an index still further before the start, as written, only prepends the negative slot to the dead list and raises IndexError; the intended pop raises IndexError and changes nothing |
| SetUtils.QueriesAgree | boltons/setutils.py:69-87 | len, in and count read the dictionary and agree with the iteration order; == compares length and iteration |
| SetUtils.FromFiltered | boltons/setutils.py:144 | a set built from a filtered iteration iterates exactly the filtered items |
| SetUtils.UnionSpec | boltons/setutils.py:138-139 | the union iterates the set first and then each new item of the others where it first occurs |
| SetUtils.UnionMem | boltons/setutils.py:138-139 | an item is in the union exactly when it is a member or in some other |
| SetUtils.IntersectionMem | boltons/setutils.py:141-152 | an item is in the intersection exactly when it is a member and every other holds it |
| SetUtils.DifferenceMem | boltons/setutils.py:154-165 | an item is in the difference exactly when it is a member and no other holds it |
| SetUtils.IntersectionSpec | boltons/setutils.py:141-152 | the intersection keeps the set's order and is tidy |
| SetUtils.DifferenceSpec | boltons/setutils.py:154-165 | the difference keeps the set's order and is tidy |
| SetUtils.SymmetricDifferenceSpec | boltons/setutils.py:167-169 | with one other, the symmetric difference holds what exactly one of the two holds |
| SetUtils.DifferenceDropsPrefix | boltons/setutils.py:25-26 | IndexedSet(range(8)) - set(range(2)) iterates 2..7 |
| SetObjects.IndexedSet.constructor | boltons/setutils.py:30-35 | the new set is FromSeq of the argument, tidy, iterating its items in first-occurrence order |
| SetObjects.IndexedSet.Add | boltons/setutils.py:105-108 | the new state is Add of the old |
| SetObjects.IndexedSet.Update | boltons/setutils.py:110-112 | the new state is AddAll of the old |
| SetObjects.IndexedSet.Compact | boltons/setutils.py:37-49 | the loops leave the state Compact gives: the live items packed and re-indexed |
| SetObjects.IndexedSet.Cull | boltons/setutils.py:51-66 | the new state is Cull of the old |
| SetObjects.IndexedSet.Remove | boltons/setutils.py:90-97 | the new state and result are those of Remove |
| SetObjects.IndexedSet.Discard | boltons/setutils.py:99-103 | the new state is Discard of the old |
| SetObjects.IndexedSet.IsDisjoint | boltons/setutils.py:114-119 | true exactly when no item of other is a member |
| SetObjects.IndexedSet.IsSubset | boltons/setutils.py:121-127 | true exactly when every member is in other (the length test never changes the answer) |
| SetObjects.IndexedSet.IsSuperset | boltons/setutils.py:129-136 | true exactly when other is no longer than the set and every item of other is a member |
| SetObjects.IndexedSet.Union | boltons/setutils.py:138-139 | a fresh set whose state is Union |
| SetObjects.IndexedSet.Intersection | boltons/setutils.py:141-152 | the general loop builds a fresh set whose state is Intersection |
| SetObjects.IndexedSet.Difference | boltons/setutils.py:154-165 | the general loop builds a fresh set whose state is Difference |
| SetObjects.IndexedSet.SymmetricDifference | boltons/setutils.py:167-169 | a fresh set whose state is SymmetricDifference |
| SetObjects.IndexedSet.SlotOf | boltons/setutils.py:180 | the loop finds the slot i plus the dead slots passed on the way |
| SetObjects.IndexedSet.GetItem | boltons/setutils.py:177-184 | the result is GetItem on the state, the intended s[index] |
| SetObjects.IndexedSet.Pop | boltons/setutils.py:186-200 | the new state and result are those of Pop, the intended pop |
| QueueUtils.LeTotal | boltons/queueutils.py:31 | entries compared as lists, priority first then counter, are totally ordered |
| QueueUtils.HeapTop | boltons/queueutils.py:3 | the top of a heapq heap is no larger than any entry |
| QueueUtils.HeapPush | boltons/queueutils.py:33 | heappush keeps the heap property and adds exactly the new entry to the multiset of entries |
| QueueUtils.SiftDown | boltons/queueutils.py:43 | the sift-down loop of heappop restores the heap property without changing the multiset of entries |
| QueueUtils.HeapPop | boltons/queueutils.py:43 | heappop returns the smallest entry and leaves a heap of the remaining entries |
| QueueUtils.TruncSpec | boltons/queueutils.py:27 | int() truncates toward zero: the result is within one of the number, on the zero side |
| QueueUtils.StoredOrder | boltons/queueutils.py:26-27 | larger numbers mean higher priority: a larger priority is stored no larger, and a missing priority is stored as 0 like a zero one |
| QueueUtils.NextUnique | boltons/queueutils.py:25-33 | at most one queued task is the next one, since counters differ |
| QueueUtils.NextFifo | boltons/queueutils.py:30-31 | among tasks of equal priority the one added first comes out first |
| QueueUtils.CulledTop | boltons/queueutils.py:39-45 | after _cull the heap is empty exactly when no task is queued, and otherwise its top holds the next task |
| QueueUtils.PopRemoved | boltons/queueutils.py:42-44 | popping a removed entry off the top keeps heap and map in agreement and the queued tasks unchanged |
| QueueUtils.PopLive | boltons/queueutils.py:60-61 | popping the live top takes exactly its task off the queue |
| QueueUtils.PushFresh | boltons/queueutils.py:30-33 | adding a new task queues it under the next counter value and keeps the others |
| QueueUtils.Unqueue | boltons/queueutils.py:35-37 | remove marks the entry removed and takes exactly that task off the queue |
| QueueUtils.HeapPriorityQueue.constructor | boltons/queueutils.py:20-23 | a new queue is consistent, empty, with the counter at zero |
| QueueUtils.HeapPriorityQueue.Add | boltons/queueutils.py:25-33 | a new task is queued under its stored priority and the next counter value; re-adding a queued task raises AttributeError and changes nothing |
| QueueUtils.HeapPriorityQueue.AddReplacing | boltons/queueutils.py:25-33 | the intended add: `task` is queued under its new priority and the next counter value, replacing any earlier entry |
| QueueUtils.HeapPriorityQueue.Remove | boltons/queueutils.py:35-37 | remove takes a queued task off the queue; KeyError for a task not queued, changing nothing |
| QueueUtils.HeapPriorityQueue.Cull | boltons/queueutils.py:39-45 | _cull leaves the queued tasks alone and, when any remain, a live entry on top |
| QueueUtils.HeapPriorityQueue.Peek | boltons/queueutils.py:47-55 | peek returns the next task and leaves it queued; on an empty queue the default if given, IndexError otherwise |
| QueueUtils.HeapPriorityQueue.Pop | boltons/queueutils.py:57-66 | pop removes and returns the next task; on an empty queue the default if given, IndexError otherwise |
| QueueUtils.HeapPriorityQueue.Len | boltons/queueutils.py:68-69 | len is the number of queued tasks |
| TreeUtils.AVLHeight | boltons/treeutils.py:119 | in an AVL tree the stored height is never negative and is zero exactly for a missing node |
| TreeUtils.NilIffEmpty | boltons/treeutils.py:161-172 | a tree is empty exactly when its traversal is |
| TreeUtils.Make | boltons/treeutils.py:119-122 | recomputing the height of a node over balanced children gives a balanced node one taller than its taller child |
| TreeUtils.LeftHeavy | boltons/treeutils.py:123-154 | rebalancing a node whose left side is two taller gives an AVL tree with the same traversal |
| TreeUtils.RotateLeft | boltons/treeutils.py:149-154 | the single left rotation ending a right-heavy fix gives an AVL tree with the same traversal |
| TreeUtils.RightHeavy | boltons/treeutils.py:123-154 | rebalancing a node whose right side is two taller gives an AVL tree with the same traversal |
| TreeUtils.FixSpec | boltons/treeutils.py:119-154 | one pass of the rebalancing loop at a node within two of balance gives an AVL tree with the same traversal; with no rotation its height is one more than the taller child, otherwise between the taller child's height and one more |
| TreeUtils.FillOrder | boltons/treeutils.py:114-118 | the tree rebuilt from a stack of frames traverses what lies before the open slot, the subtree in it, then what lies after |
| TreeUtils.PathPush | boltons/treeutils.py:57 | pushing a node of an AVL subtree onto the path keeps the path condition |
| TreeUtils.FixAtSpec | boltons/treeutils.py:116-158 | popping one frame and fixing its node keeps the traversal and yields an AVL subtree within one of the slot's old height |
| TreeUtils.Rebalance | boltons/treeutils.py:114-159 | _rebalance turns a path whose deepest slot changed height by at most one into an AVL tree with the same traversal |
| TreeUtils.SortedInsert | boltons/treeutils.py:8 | insertion into the traversal adds one entry |
| TreeUtils.UpperBound | boltons/treeutils.py:58-61 | the cut point: every entry before it has a key not larger than k, and the entry at it a larger key |
| TreeUtils.SortedInsertAt | boltons/treeutils.py:8 | equal keys keep insertion order: the new entry goes after all entries with the same key and before every larger key, and the traversal stays sorted |
| TreeUtils.InsertLands | boltons/treeutils.py:62-68 | when the walk reaches an empty slot, the new leaf there gives the stable sorted insertion |
| TreeUtils.InsertNode | boltons/treeutils.py:43-71 | insert leaves an AVL tree whose traversal is the stable sorted insertion of the new entry |
| TreeUtils.SearchMiss | boltons/treeutils.py:78-90 | a walk that falls off the tree proves no entry holds the key |
| TreeUtils.DropNode | boltons/treeutils.py:102-109 | removing a node with at most one child, the child taking its place, removes one entry with its key |
| TreeUtils.DropSuccessor | boltons/treeutils.py:91-101 | removing a node with two children via its in-order successor removes one entry with its key |
| TreeUtils.DropTwo | boltons/treeutils.py:91-111 | the two-children case of delete leaves an AVL tree whose traversal lacks exactly one entry with the key |
| TreeUtils.DeleteNode | boltons/treeutils.py:73-112 | delete succeeds exactly when some entry holds the key, leaving an AVL tree with one such entry removed; otherwise KeyError |
| TreeUtils.ContainsKey | boltons/treeutils.py:214-226 | the search answers whether some entry holds the key |
| TreeUtils.IterNodes | boltons/treeutils.py:161-172 | _iternodes yields exactly the in-order traversal |
| TreeUtils.SortedInsertCount | boltons/treeutils.py:43-71 | insertion adds exactly the new entry to the multiset of entries |
| TreeUtils.RemovedSorted | boltons/treeutils.py:8-11 | removing one entry from a sorted traversal leaves it sorted |
| TreeUtils.InsertAllSorts | boltons/treeutils.py:39-41 | inserting items one by one leaves a sorted traversal holding exactly the old entries and the items |
| TreeUtils.Tree.constructor | boltons/treeutils.py:27-37 | a new tree is valid and holds the items inserted in turn |
| TreeUtils.Tree.Insert | boltons/treeutils.py:43-71 | the tree stays valid, its entries are the stable sorted insertion of the new one and node_count grows by one |
| TreeUtils.Tree.InsertMany | boltons/treeutils.py:39-41 | the entries are those of inserting every item in turn |
| TreeUtils.Tree.Delete | boltons/treeutils.py:73-112 | KeyError when no entry holds the key, the tree untouched; otherwise one entry with the key is gone and node_count drops by one |
| TreeUtils.Tree.Contains | boltons/treeutils.py:214-226 | true exactly when some entry holds the key |
| TreeUtils.Tree.Iter | boltons/treeutils.py:203-206 | the nodes in `_iternodes` order: every entry once, in non-decreasing key order, node_count of them; their keys are what `iterkeys`, and so `__iter__`, yields |
| TreeUtils.Tree.Len | boltons/treeutils.py:234-235 | len is the number of entries, zero exactly for an empty tree |
| TreeUtils.GetIndices | boltons/treeutils.py:174-192 | the indices are computed exactly when key_size >= 1 and val_size >= 0, otherwise ValueError; the key index selects positions 0 to key_size - 1, the value index positions key_size to key_size + val_size - 1, or position 0 when val_size is 0 |
| ListUtils.FlattenAround | boltons/listutils.py:122-123 | the concatenation of the sublists is what lies before sublist j, then sublist j, then what lies after |
| ListUtils.FlattenAt | boltons/listutils.py:145-148 | element r of sublist j is element offset(j) + r of the concatenation |
| ListUtils.TranslateFrom | boltons/listutils.py:39-43 | the translation loop stops at a sublist index within the list of sublists |
| ListUtils.Translate | boltons/listutils.py:35-46 | a translated location names an existing sublist and a non-negative position |
| ListUtils.TranslateSpec | boltons/listutils.py:35-46 | a position inside the list is located at the sublist and offset holding it; a position before the start gives None; a position at or past the end is not rejected but lands in the last sublist at the overshoot |
| ListUtils.TranslateCheckedSpec | boltons/listutils.py:35-46 | the corrected translation locates exactly the positions inside the list and gives None for all others |
| ListUtils.TranslatePastEnd | boltons/listutils.py:35-46 | with the single sublist [1, 2], index 2 is translated to the first element, where the corrected translation gives None |
| ListUtils.SplitSpec | boltons/listutils.py:54-58 | the pieces of a split sublist concatenate back to it; the first piece holds at most half the limit and every later one exactly half the limit |
| ListUtils.Balance | boltons/listutils.py:48-60 | balancing never removes a sublist |
| ListUtils.BalanceSpec | boltons/listutils.py:48-60 | balancing never changes the contents, leaves the other sublists alone, and leaves at most half the limit in the sublist when it was over the limit |
| ListUtils.InsertPos | boltons/listutils.py:64 | list.insert's position is clamped to the list |
| ListUtils.InsertLocated | boltons/listutils.py:69 | inserting into sublist j at r inserts into the contents at offset(j) + r |
| ListUtils.PopLocated | boltons/listutils.py:92 | popping sublist j at r removes that element of the contents |
| ListUtils.SortSeqSpec | boltons/listutils.py:157-159 | sorted() gives a sorted permutation of its input |
| ListUtils.SortEachCount | boltons/listutils.py:159 | sorting each sublist keeps the multiset of all the items |
| ListUtils.TotalLength | boltons/listutils.py:128-129 | the sum of the sublist lengths is the length of the contents |
| ListUtils.CountAll | boltons/listutils.py:96-97 | the sum of the per-sublist counts is the count in the contents |
| ListUtils.ReversedChain | boltons/listutils.py:125-126 | each sublist reversed, in reverse order, is the contents reversed |
| ListUtils.AppendLast | boltons/listutils.py:73-77 | appending to the last sublist appends to the contents |
| ListUtils.InsertTranslated | boltons/listutils.py:66-70 | an insertion at a translated position inside the list inserts the item there in the contents |
| ListUtils.InsertSeveral | boltons/listutils.py:62-71 | with several sublists, an index inside the list inserts there and an index before the start raises IndexError, changing nothing |
| ListUtils.InsertTwice | boltons/listutils.py:62-71 | with a single sublist and an index from -len(lists[0]) to len(lists[0]), insert as written puts the item in twice, next to each other |
| ListUtils.InsertFixedOnce | boltons/listutils.py:62-71 | with one sublist the corrected insert is list.insert on it, the item going in once at the clamped position; with any number of sublists an index inside the list puts the item in once at that position |
| ListUtils.PopEnd | boltons/listutils.py:79-87 | pop() and pop(-1) remove and return the last item of the last sublist, dropping that sublist when it empties; IndexError when the last sublist is already empty |
| ListUtils.PopLastOf | boltons/listutils.py:85 | popping the last element of a non-empty last sublist removes the last item of the contents |
| ListUtils.PopAt | boltons/listutils.py:88-94 | pop(i) for another index before the start raises IndexError and changes nothing; at or past the end it pops the last sublist at the overshoot |
| ListUtils.PopAtInside | boltons/listutils.py:88-94 | pop(i) for an index inside the list removes and returns the item at that position |
| ListUtils.SortSingle | boltons/listutils.py:156-157 | sorting a single sublist leaves a sorted permutation |
| ListUtils.SortDuplicates | boltons/listutils.py:158-160 | with several sublists, sort as written puts the sorted items of every sublist into the first one and leaves the others, so those items occur twice |
| ListUtils.SortDuplicatesExample | boltons/listutils.py:158-160 | [[2], [1]] sorts to [[1, 2], [1]] as written |
| ListUtils.SortFixedSpec | boltons/listutils.py:153-160 | the corrected sort leaves a sorted permutation of the contents |
| ListUtils.SplitLoop | boltons/listutils.py:55-58 | the splitting loop leaves the sublist's pieces in its place, the others untouched |
| ListUtils.BarrelList.constructor | boltons/listutils.py:22-25 | a new list has one sublist holding the items |
| ListUtils.BarrelList.Len | boltons/listutils.py:128-129 | len is the length of the contents |
| ListUtils.BarrelList.Count | boltons/listutils.py:96-97 | count is the number of occurrences in the contents |
| ListUtils.BarrelList.ReversedItems | boltons/listutils.py:125-126 | reversed iteration yields the contents backwards |
| ListUtils.BarrelList.Contains | boltons/listutils.py:131-135 | true exactly when the item is in the contents |
| ListUtils.BarrelList.TranslateIndex | boltons/listutils.py:35-46 | the loop computes Translate |
| ListUtils.BarrelList.BalanceList | boltons/listutils.py:48-60 | the sublists become Balance of the old ones, and the result says whether the sublist was over the limit |
| ListUtils.BarrelList.Insert | boltons/listutils.py:62-71 | the new sublists and result are those of insert as written |
| ListUtils.BarrelList.Append | boltons/listutils.py:73-74 | the item goes onto the last sublist and onto the end of the contents |
| ListUtils.BarrelList.Extend | boltons/listutils.py:76-77 | the items go onto the last sublist and onto the end of the contents |
| ListUtils.BarrelList.Pop | boltons/listutils.py:79-94 | the new sublists and result are those of pop as written |
| ListUtils.BarrelList.GetItem | boltons/listutils.py:137-148 | inside the list it returns the item there; before the start IndexError; at or past the end it reads the last sublist at the overshoot, IndexError past that |
| ListUtils.BarrelList.Sort | boltons/listutils.py:153-160 | the sublists become those of sort as written |
| TableUtils.CellsOf | boltons/tableutils.py:169 | one cell list per stored row, each that row's current cells |
| TableUtils.MaxLen | boltons/tableutils.py:163 | the longest row's length: no row is longer and some row has it |
| TableUtils.NewWidthSpec | boltons/tableutils.py:155-163 | a width already set stays; otherwise the number of headers when there are any, else the longest row; no rows and no headers is a ValueError, the sentinel headers a TypeError |
| TableUtils.Nones | boltons/tableutils.py:166-172 | [None] * n is n None cells |
| TableUtils.Pad | boltons/tableutils.py:165-173 | a padded row keeps its cells as a prefix and is filled with None up to the width; a row as long or longer is unchanged |
| TableUtils.PadExample | boltons/tableutils.py:343 | extending a two-header table with [3, 'Kurt Rose'] and [4] gives width two and pads the short row to [4, None] |
| TableUtils.ColumnLensSpec | boltons/tableutils.py:320 | the column's text lengths, one per row, are computed exactly when every row reaches the column; otherwise IndexError |
| TableUtils.MaxOfSpec | boltons/tableutils.py:323 | max is an upper bound of the values and one of them |
| TableUtils.ColumnWidthSpec | boltons/tableutils.py:319-323 | a column is as wide as its longest cell text, or its header when headers are shown; every row must reach the column, and with no rows and no header max fails with ValueError |
| TableUtils.WidthsSpec | boltons/tableutils.py:319-323 | the widths list holds one entry per column, each that column's width |
| TableUtils.Centered | boltons/tableutils.py:325-330 | each text is centred to its column width; a None header raises AttributeError and a list longer than the widths IndexError |
| TableUtils.Dashes | boltons/tableutils.py:327 | one run of dashes per column, as long as its width |
| TableUtils.RowLines | boltons/tableutils.py:328-330 | one line per row, each the row's rendered line |
| TableUtils.RowLineWidth | boltons/tableutils.py:329-330 | a row with one fitting cell per column renders to a line of the table's full width |
| TableUtils.TextAligned | boltons/tableutils.py:314-331 | when rendering succeeds every row and the shown header list have exactly one cell per column, and every line has the same length |
| TableUtils.RowFits | boltons/tableutils.py:319-330 | a row that renders has exactly one cell per column, each fitting its computed column width |
| TableUtils.HeaderFits | boltons/tableutils.py:319-327 | when headers render, there is one header per column and the header and separator lines have the full table width |
| TableUtils.Render | boltons/tableutils.py:314-331 | the loops of to_text produce exactly the text Text specifies |
| TableUtils.SentinelHeaders | boltons/tableutils.py:140-163 | a table made with neither data nor headers keeps the sentinel as headers, so extending it raises TypeError and so does rendering it |
| TableUtils.HeadersOfFixed | boltons/tableutils.py:143 | the corrected headers are always a list: the given names, or empty |
| TableUtils.FixedHeadersExtend | boltons/tableutils.py:140-163 | with the corrected headers such a table takes the width of its longest row and renders as an empty header and separator |
| TableUtils.Table.Empty | boltons/tableutils.py:143-145 | a table with the given headers, no rows and width zero |
| TableUtils.Table.New | boltons/tableutils.py:140-146 | without headers the first row is copied as headers and the rest stored; otherwise the given headers; the width is set and every row padded, or the width error is returned |
| TableUtils.Table.GetItem | boltons/tableutils.py:235-236 | table[index] succeeds exactly for -len <= index < len and returns the stored row object itself; otherwise IndexError |
| TableUtils.Table.Extend | boltons/tableutils.py:148-153 | empty data changes nothing; otherwise the rows are appended, the width is set from the headers or the longest row, and every row padded; on a width error the rows stay appended, the width and cells are unchanged, and the error is returned |
| TableUtils.Table.Absorb | boltons/tableutils.py:151-153 | the rows are stored, the width set and every row padded |
| TableUtils.Table.SetWidth | boltons/tableutils.py:155-163 | the width becomes NewWidth of the (reset) width, the headers and the rows |
| TableUtils.Table.Fill | boltons/tableutils.py:165-173 | every stored row, however aliased, is padded in place to the width |
| TableUtils.Table.ToText | boltons/tableutils.py:314-331 | the result is Text of the table's headers, rows and width |
| FileUtils.Shift | boltons/fileutils.py:156-161 | the shift for a party is three times its offset: user 2, group 1, other 0 |
| FileUtils.GroupBits | boltons/fileutils.py:106-111 | a party's bits before shifting fit in the low three bits |
| FileUtils.Canonical | boltons/fileutils.py:100-102 | the stored string is again made of r, w and x only |
| FileUtils.Key | boltons/fileutils.py:129 | every key of from_int is a valid permission string |
| FileUtils.OctalGroups | boltons/fileutils.py:131-133 | the loop collects the octal groups, lowest first, while anything is left |
| FileUtils.FromIntShape | boltons/fileutils.py:128-135 | the parts passed on are the octal digits without leading zeros, highest first |
| FileUtils.FromIntPartsValid | boltons/fileutils.py:129-135 | at most three parts are passed on and each is a valid permission string |
| FileUtils.AssignRejectsInvalid | boltons/fileutils.py:90-98 | assigning a new value containing a character other than r, w, x raises ValueError, and only such a value fails |
| FileUtils.AssignSameIsNoop | boltons/fileutils.py:87-89 | assigning a field its current value changes nothing, not even the integer |
| FileUtils.AssignOk | boltons/fileutils.py:100-112 | a valid new value stores its canonical string and ORs its bits, at the party's shift, into the integer |
| FileUtils.AssignStrings | boltons/fileutils.py:100-103 | a successful assignment stores the value's letters in r, w, x order and leaves the other two strings alone |
| FileUtils.AssignOnlyGainsBits | boltons/fileutils.py:112 | the integer only gains bits: every old bit stays and the new value's bits are set |
| FileUtils.CanonicalIsSortedSet | boltons/fileutils.py:100-102 | the stored string holds each letter of the value exactly once, in r, w, x order |
| FileUtils.CanonicalIsCanonical | boltons/fileutils.py:100-102 | the stored string is one of the eight canonical forms |
| FileUtils.CanonicalSameBits | boltons/fileutils.py:100-112 | sorting and de-duplicating the letters does not change their bits |
| FileUtils.AssignKeepsConsistent | boltons/fileutils.py:86-112 | assignment keeps every stored string canonical with all its bits set in the integer |
| FileUtils.CanonicalIdempotent | boltons/fileutils.py:100-102 | canonicalising a stored string again changes nothing |
| FileUtils.CanonicalExamples | boltons/fileutils.py:64-65 | 'xrw' and 'wxr' are both stored as 'rwx' |
| FileUtils.StaleBitsKept | boltons/fileutils.py:112 | user 'rwx' then user 'r' leaves the integer 0o700, not 0o400 |
| FileUtils.NewSucceeds | boltons/fileutils.py:114-119 | the constructor succeeds exactly when all three strings are made of r, w and x |
| FileUtils.NewExact | boltons/fileutils.py:114-119 | on a fresh object the integer is exactly the mode of the three strings |
| FileUtils.ReadReadIs440 | boltons/fileutils.py:66-67 | FilePerms('r', 'r', '') has the integer 0o440 |
| FileUtils.KeyBits | boltons/fileutils.py:129 | each of the eight keys stands for its own index |
| FileUtils.NewOfKeys | boltons/fileutils.py:135 | a FilePerms built from three keys holds their canonical forms and the integer whose octal digits are the three indexes |
| FileUtils.FromIntUserBitsSet | boltons/fileutils.py:122-135 | with non-zero user bits from_int keeps every bit: its integer is i & 0o777 and its strings are the octal digits |
| FileUtils.FromIntDropsZeroUser | boltons/fileutils.py:129-135 | with zero user bits the remaining groups land in user and group and the integer is shifted up three bits |
| FileUtils.FromIntOnlyOther | boltons/fileutils.py:129-135 | with only other bits they land in user; from_int(0) is the empty FilePerms |
| FileUtils.FromInt644 | boltons/fileutils.py:125-126 | from_int(0o644) is FilePerms(user='rw', group='r', other='r') |
| FileUtils.FromInt044 | boltons/fileutils.py:129-135 | from_int(0o044) gives user 'r', group 'r' and the integer 0o440 |
| FileUtils.FromInt3 | boltons/fileutils.py:129-135 | from_int(3) stores the key 'xw' as 'wx' in user |
| FileUtils.FromIntFixedExact | boltons/fileutils.py:121-135 | from_int as its docstring means it keeps every bit: its integer is i & 0o777, its strings are the three octal digits, and it agrees with the code whenever the user bits are not zero |
| FileUtils.FromIntFixed044 | boltons/fileutils.py:121-135 | the intended from_int(0o044) gives group 'r', other 'r' and the integer 0o044 |
| FileUtils.AssignFixedExact | boltons/fileutils.py:106-112 | an assignment that clears the party's old bits before setting the new ones fails exactly as the code's does and keeps the integer exactly the mode of the three strings |
| FileUtils.StaleBitsCleared | boltons/fileutils.py:106-112 | with the old bits cleared, user 'rwx' then user 'r' leaves 0o400 |
| FileUtils.FilePerms.Empty | boltons/fileutils.py:115-116 | the state __init__ starts from: empty strings and a zero integer |
| FileUtils.FilePerms.Int | boltons/fileutils.py:152-153 | int(perms) is the integer, within the nine permission bits |
| FileUtils.FilePerms.UpdateInteger | boltons/fileutils.py:106-112 | the loop ORs exactly the value's bits, at the party's shift, into the integer |
| FileUtils.FilePerms.Set | boltons/fileutils.py:86-104 | the property assignment succeeds exactly when Assign does and leaves its state; on ValueError nothing changes |
| FileUtils.Make | boltons/fileutils.py:114-119 | a fresh object holding New of the three strings, or ValueError exactly when New fails |
| FileUtils.FromInt | boltons/fileutils.py:121-135 | a fresh object holding the value from_int builds from i masked to nine bits |
| NamedUtils.CommasToSpaces | boltons/namedutils.py:101 | every comma becomes a space and every other character is kept |
| NamedUtils.SplitCommasToSpaces | boltons/namedutils.py:100-101 | replacing commas by spaces and splitting on whitespace is splitting on commas and whitespace alike |
| NamedUtils.FieldListOfText | boltons/namedutils.py:100-101 | a string of field names yields its maximal non-empty runs of characters that are neither commas nor whitespace, none holding a comma or whitespace |
| NamedUtils.PositionalName | boltons/namedutils.py:112 | the positional name is non-empty and starts with an underscore |
| NamedUtils.Renamed | boltons/namedutils.py:103-113 | renaming keeps the number of names and replaces exactly the names the rename test flags |
| NamedUtils.Rename | boltons/namedutils.py:103-113 | the in-place rename loop computes Renamed |
| NamedUtils.Validate | boltons/namedutils.py:114-132 | the two validation loops compute Check |
| NamedUtils.CheckNamesOk | boltons/namedutils.py:114-124 | the first loop passes exactly when every name passes the character, keyword and leading-digit checks |
| NamedUtils.CheckFieldsOk | boltons/namedutils.py:125-132 | the second loop passes exactly when no field starts with an underscore (unless renaming) and no field repeats |
| NamedUtils.CheckOk | boltons/namedutils.py:114-132 | validation succeeds exactly when the type name and every field pass the name checks, no field starts with an underscore unless renaming, and the fields are distinct |
| NamedUtils.CheckNamesErrors | boltons/namedutils.py:114-124 | every failure of the name checks is a ValueError, except an empty name reaching name[0], which raises IndexError |
| NamedUtils.EmptyTypeName | boltons/namedutils.py:114-124 | an empty type name always fails with IndexError |
| NamedUtils.PositionalNameOk | boltons/namedutils.py:112 | a positional name passes the name checks and starts with an underscore |
| NamedUtils.PositionalNameInjective | boltons/namedutils.py:112 | different positions give different positional names |
| NamedUtils.RenamedAccepted | boltons/namedutils.py:98-132 | after renaming every field passes validation, so only the type name can still be rejected |
| NamedUtils.NamedType | boltons/namedutils.py:98-132 | namedtuple and namedlist split, rename if asked and validate in the same way: the type is built exactly when Check passes, up to the generated source compiling; otherwise Check's error (namedlist repeats these steps at lines 254-288) |
| NamedUtils.Make | boltons/namedutils.py:37-44 | _make as the namedtuple class has it (and as the namedlist docstring shows it) succeeds exactly with as many values as fields and returns them; otherwise TypeError |
| NamedUtils.NamedListMakeFails | boltons/namedutils.py:193-200 | the namedlist _make builds its list with list.__new__, which ignores the iterable, so with at least one field it raises TypeError even for the right number of values, which the intended _make accepts |
| NamedUtils.MakeAsWrittenOtherwise | boltons/namedutils.py:193-200 | the namedtuple _make is the intended one, and a namedlist type without fields makes an empty record from any iterable |
| NamedUtils.AsDict | boltons/namedutils.py:51-53 | _asdict holds one pair per field |
| NamedUtils.FromKeywords | boltons/namedutils.py:33-35 | calling the class with keywords succeeds exactly when they name every field and nothing else, giving the values in field order |
| NamedUtils.ToMapOf | boltons/namedutils.py:53 | with distinct names the dictionary maps each name to its value and holds nothing else |
| NamedUtils.AsDictRoundTrip | boltons/namedutils.py:89-93 | Point(**p._asdict()) rebuilds p |
| NamedUtils.PopFields | boltons/namedutils.py:55-60 | map(kwds.pop, field_names, self) gives each field its keyword's value when there is one and its current value otherwise, and leaves exactly the keywords that name no field |
| NamedUtils.Replace | boltons/namedutils.py:55-60 | _replace succeeds exactly when every keyword names a field, replacing those fields and keeping the others; otherwise ValueError |
| NamedUtils.ReplaceAsWritten | boltons/namedutils.py:211-216 | the namedlist _replace goes through its _make before checking leftover keywords, so with at least one field it always raises TypeError; the namedtuple _replace is the intended one |
| NamedUtils.SplitExample | boltons/namedutils.py:100-101 | 'x, y' names the fields x and y |
| NamedUtils.RenameExample | boltons/namedutils.py:103-113 | with rename, ['abc', 'def', 'ghi', 'abc'] becomes ['abc', '_1', 'ghi', '_3'] |
| FormatUtils.ConstructFormatFieldStr | boltons/formatutils.py:22-36 | '' for a missing name; otherwise a braced string that starts with the name |
| FormatUtils.ConstructShape | boltons/formatutils.py:30-35 | the field string is '{', the name, '!' and the conversion when non-empty, ':' and the spec when non-empty, then '}' |
| FormatUtils.FirstIndex | boltons/formatutils.py:22-36 | the first index whose character stops the scan, or the length |
| FormatUtils.FieldPartsOfConstruct | boltons/formatutils.py:22-36 | reading a built field string back gives the name, the conversion when it was given and the spec when it was given |
| FormatUtils.EscapeStep | boltons/formatutils.py:71-73 | an escaped '{{' or '}}' is copied unchanged and takes no number |
| FormatUtils.AnonStep | boltons/formatutils.py:74-75 | an anonymous field gets the next number, its closing character kept |
| FormatUtils.PlainStep | boltons/formatutils.py:66-76 | any other character is copied by itself |
| FormatUtils.InferPositionalFormatArgs | boltons/formatutils.py:54-77 | the scanning loop returns the template with its anonymous fields numbered from 0, left to right |
| FormatUtils.Numbered | boltons/formatutils.py:63-77 | numbering the anonymous fields only inserts digits: the result is at least as long as the text |
| FormatUtils.InferPositional | boltons/formatutils.py:54-77 | the positional format string is at least as long as the one given |
| FormatUtils.MatchKeeps | boltons/formatutils.py:66-75 | a match keeps the scan's invariant |
| FormatUtils.PlainKeeps | boltons/formatutils.py:66-76 | a character starting no match keeps the scan's invariant |
| FormatUtils.NumberedAfterCloseBrace | boltons/formatutils.py:17-19 | a '}' is always copied by itself |
| FormatUtils.NumberedField | boltons/formatutils.py:17-19 | an already numbered field is copied as it is |
| FormatUtils.NumberedIdempotent | boltons/formatutils.py:54-77 | numbering is idempotent: numbering the result again, from any number, changes nothing |
| FormatUtils.NumberedWithoutBraces | boltons/formatutils.py:66-76 | text without braces is copied unchanged |
| FormatUtils.InferExample | boltons/formatutils.py:277 | '{} {} {}' becomes '{0} {1} {2}' |
| FormatUtils.TypeChar | boltons/formatutils.py:181 | the type character is the spec's last character, or '' for an empty spec |
| FormatUtils.TypeFuncOfChar | boltons/formatutils.py:80-84 | 'bcdoxX' map to int, 'eEfFgG%' and 'n' to float, every other type character and none to str (the lookup with default str is line 182) |
| FormatUtils.FieldPath | boltons/formatutils.py:166 | re.split always gives at least one piece |
| FormatUtils.FieldPathParts | boltons/formatutils.py:166-170 | the base name is the longest prefix of the name without '.' or '['; when it is not the whole name, the name continues with one of them and the subpath is the split of the rest |
| FormatUtils.BaseFormatField.constructor | boltons/formatutils.py:160-163 | a new field holds the name, base name and subpath of set_fname, the spec and type of set_fspec and the conversion |
| FormatUtils.BaseFormatField.SetFname | boltons/formatutils.py:165-171 | the base name is the text before the first '.' or '[', the subpath the pieces after it; positional exactly when the base name is empty or all digits |
| FormatUtils.BaseFormatField.SetFspec | boltons/formatutils.py:173-182 | a missing spec counts as ''; the type character and type come from the spec's last character |
| FormatUtils.BaseFormatField.SetConv | boltons/formatutils.py:184-188 | the conversion is stored and the other fields stay |
| FormatUtils.BaseFormatField.Fstr | boltons/formatutils.py:190-192 | the rebuilt field string is braced around the name and reads back the name, conversion and spec |
| IterUtils.SplitGroups | boltons/iterutils.py:57-75 | the loop's groups are those of the split specification: a separator closes the open group (skipped for sep=None when the group is empty), the test is switched off after maxsplit splits, and the last group is kept unless it is empty under sep=None |
| IterUtils.SplitFrom | boltons/iterutils.py:57-74 | without a grouping separator at least one group comes out; with sep=None (grouping) no group is empty |
| IterUtils.Split | boltons/iterutils.py:43-74 | split without grouping, or with maxsplit=0, yields at least one group; with sep=None and any other maxsplit every group is non-empty |
| IterUtils.SplitIter | boltons/iterutils.py:12-75 | split returns the groups of the split specification, with maxsplit=0 giving the source as the one group |
| IterUtils.SplitIterAsWritten | boltons/iterutils.py:43-47 | with maxsplit=0 the code yields a group holding the source itself as a single element; otherwise it yields the loop's groups |
| IterUtils.MaxsplitZeroNests | boltons/iterutils.py:43-75 | for maxsplit=0 the loop would already give the source's elements as the one group, which is what the early return was meant to produce |
| IterUtils.Unhonoured | boltons/iterutils.py:60-61 | once maxsplit splits have happened, the rest of the input, separators included, joins the last group |
| IterUtils.GroupsBeforeLastHaveNoSep | boltons/iterutils.py:62-71 | every group but the last is free of separators, whatever maxsplit |
| IterUtils.NoSepAppend | boltons/iterutils.py:70-71 | adding a non-separator keeps a group free of separators |
| IterUtils.ClosedGroupFirst | boltons/iterutils.py:62-69 | a separator that closes the open group makes it the next group yielded, followed by the groups of the rest |
| IterUtils.NoGroupHasSep | boltons/iterutils.py:26-27 | without maxsplit a separator never appears in the output |
| IterUtils.SplitRoundTrip | boltons/iterutils.py:62-74 | with an explicit separator and no maxsplit there is one group more than there are separators, and putting the separators back between the groups gives the input |
| IterUtils.InterleaveHead | boltons/iterutils.py:62-74 | the rejoined sequence starts with the first group |
| IterUtils.GroupingKeepsNonSeps | boltons/iterutils.py:57-73 | with sep=None and no maxsplit, no group is empty and the groups hold exactly the non-separators, in order |
| IterUtils.MaxsplitBound | boltons/iterutils.py:58-67 | a non-negative maxsplit allows at most maxsplit + 1 groups |
| IterUtils.SplitProperties | boltons/iterutils.py:20-75 | the properties above stated for split on its whole input, including a negative maxsplit giving the source as one group |
| IterUtils.SplitExampleNone | boltons/iterutils.py:33-34 | the docstring example with sep=None |
| IterUtils.SplitExampleFalsy | boltons/iterutils.py:36-38 | the docstring example with a falsy-value separator test |
| IterUtils.MulAtLeast | boltons/iterutils.py:125 | a positive multiple of the chunk size is at least the size |
| IterUtils.DivModUnique | boltons/iterutils.py:125 | the running count's remainder modulo the size is fixed by its decomposition |
| IterUtils.ChunkedIter | boltons/iterutils.py:96-133 | ValueError exactly for a size below one; otherwise the result cuts the source into full chunks, with a last chunk of one to size items, padded to size when a fill value is given |
| IterUtils.CollectChunks | boltons/iterutils.py:120-127 | after the loop the closed chunks are full and, followed by the open chunk, give the source; the open chunk is shorter than size |
| IterUtils.ChunkAdvance | boltons/iterutils.py:122-127 | one item joins the open chunk, and the count is a multiple of size exactly when that fills it |
| IterUtils.ChunkClose | boltons/iterutils.py:125-127 | a full chunk closed at a multiple of size keeps the loop invariant |
| IterUtils.ModStep | boltons/iterutils.py:124-125 | from a multiple of size, the count reaches the next multiple exactly when the open chunk fills |
| IterUtils.ChunkFinishOpen | boltons/iterutils.py:128-132 | a non-empty open chunk, padded when a fill value is given, completes the chunking |
| IterUtils.PaddingAfter | boltons/iterutils.py:129-131 | the fill pads the last chunk by size minus its length |
| IterUtils.ChunkFinishEven | boltons/iterutils.py:118-128 | a loop that ends with no open chunk has cut the source into full chunks |
| IterUtils.Chunked | boltons/iterutils.py:78-93 | ValueError exactly for a size below one; otherwise the first count chunks of a chunking, all of them without count |
| RootIterUtils.NonEmptyGroups | iterutils.py:45 | the kept groups are all non-empty |
| RootIterUtils.Split | iterutils.py:8-47 | the loop returns the groups of the specification: closed groups are appended, the test is switched off once maxsplit groups exist, empty groups are dropped for key=None, maxsplit=0 gives the source |
| RootIterUtils.RawStep | iterutils.py:32-39 | a live separator closes the open group; any other item joins it |
| RootIterUtils.RawGroupsBeforeLastHaveNoSep | iterutils.py:32-40 | every group of ret but the last is free of separators |
| RootIterUtils.RawUnkeyed | iterutils.py:36-37 | once the test is replaced, the rest of the input joins the last group |
| RootIterUtils.RawMaxsplitBound | iterutils.py:33-37 | at most max(maxsplit, 1) groups are closed; a negative maxsplit still lets the first separator split |
| RootIterUtils.RawRoundTrip | iterutils.py:30-40 | without maxsplit, putting the separators back between the groups gives the input |
| RootIterUtils.AgreesWithSplitIter | iterutils.py:42-47 | without maxsplit this split and split_iter agree for every separator |
| RootIterUtils.NonEmptyAppend | iterutils.py:45 | dropping empty groups distributes over concatenation |
| RootIterUtils.RootSplitProperties | iterutils.py:8-47 | maxsplit=0 gives the source; without maxsplit the result equals split_iter's, has no separators and rejoins to the input; with key=None no group is empty; the group count is bounded by maxsplit |
| RootIterUtils.MaxsplitCountsSkippedSeparator | iterutils.py:33-45 | with key=None and maxsplit=1, a leading separator closes an empty group that uses up maxsplit here, while split_iter skips it |
| StrUtils.MarkBoundaries | boltons/strutils.py:17-28 | the substitution only inserts characters: the result is at least as long as the input |
| StrUtils.Camel2Under | boltons/strutils.py:20-28 | the result has no uppercase letter and is at least as long as the input |
| StrUtils.CapitalizePiece | boltons/strutils.py:39 | never empty: an empty piece becomes '_', any other piece is capitalised |
| StrUtils.CapitalizePieces | boltons/strutils.py:39 | each piece is capitalised, or '_' when empty |
| StrUtils.MarkNoUpper | boltons/strutils.py:17 | text without uppercase letters is left unchanged by the substitution |
| StrUtils.MarkConcat | boltons/strutils.py:17 | the marking of a piece not ending in an uppercase letter does not depend on what follows it |
| StrUtils.MarkStep | boltons/strutils.py:17 | the substitution works character by character; a character that is not uppercase is never marked |
| StrUtils.MarkCapWord | boltons/strutils.py:17 | a capitalised word after a lowercase letter or digit gains a leading '_', at the start of the string none |
| StrUtils.MarkCapWords | boltons/strutils.py:17 | a run of capitalised words gets '_' before every word but the first |
| StrUtils.MarkCapWordThen | boltons/strutils.py:17 | a capitalised word followed by text whose marking starts with '_' |
| StrUtils.LowerJoin | boltons/strutils.py:28 | lower-casing a joined text lower-cases each piece |
| StrUtils.Camel2UnderOfWords | boltons/strutils.py:20-28 | a name made of capitalised words becomes its lower-cased words joined by '_' |
| StrUtils.CapitalizeLowerCapWords | boltons/strutils.py:39 | capitalising the lower-cased capitalised words gives them back |
| StrUtils.Under2CamelOfPieces | boltons/strutils.py:31-39 | under2camel capitalises every '_'-separated piece and joins them |
| StrUtils.LowerCapWordsHaveNoUnderscore | boltons/strutils.py:39 | lower-cased capitalised words hold no '_' |
| StrUtils.Under2CamelUndoesCamel2Under | boltons/strutils.py:20-39 | under2camel undoes camel2under on every name made of capitalised words |
| StrUtils.Camel2UnderExample | boltons/strutils.py:25-26 | 'BasicParseTest' becomes 'basic_parse_test' |
| StrUtils.Under2CamelExample | boltons/strutils.py:36-37 | 'complex_tokenizer' becomes 'ComplexTokenizer' |
| StrUtils.SplitPunctWs | boltons/strutils.py:96-105 | no word is empty |
| StrUtils.SplitPunctWsAtSeparator | boltons/strutils.py:15-16 | a punctuation or whitespace character divides the words: the words of both sides, in order |
| StrUtils.SplitPunctWsOfWord | boltons/strutils.py:105 | a non-empty text without separators is one word |
| StrUtils.SplitPunctWsOfSeparators | boltons/strutils.py:105 | a text made only of separators has no words |
| StrUtils.WordThenSeparator | boltons/strutils.py:105 | a word followed by a separator is the first word |
| StrUtils.SeparatorFirst | boltons/strutils.py:105 | a leading separator is dropped |
| StrUtils.WordsAreSlices | boltons/strutils.py:105 | each word is a slice of the text |
| StrUtils.NonEmptyFrom | boltons/strutils.py:105 | each kept piece is one of re.split's pieces |
| StrUtils.PiecesAreSlices | boltons/strutils.py:105 | each piece of re.split is a slice of the text |
| StrUtils.ExampleShapeWords | boltons/strutils.py:102-103 | any four words in the shape of the docstring example are split out in order |
| StrUtils.Slugify | boltons/strutils.py:73-93 | with lower set the slug has no uppercase letter |
| StrUtils.SlugifyJoinsWords | boltons/strutils.py:88-93 | the slug of a lower-case text is its words joined by the delimiter, whatever lower says |
| StrUtils.SlugifyExample | boltons/strutils.py:83-84 | 'First post! Hi!!!!~1 ' becomes 'first_post_hi_1' |
| StrUtils.MatchCase | boltons/strutils.py:163-172 | the result equals the disciple up to case; a blank master returns it unchanged; a lower-case master gives lower case, an upper-case master upper case, a capitalised master a capitalised result |
| StrUtils.Cardinalize | boltons/strutils.py:108-122 | the noun itself for a count of one, its plural otherwise |
| StrUtils.LowerWordIsPlain | boltons/strutils.py:126 | strip and lower leave a lower-case word unchanged |
| StrUtils.MatchCaseOfLowerWords | boltons/strutils.py:166-167 | a lower-case master leaves a lower-case disciple unchanged |
| StrUtils.RegularPluralIsLowerWord | boltons/strutils.py:154-159 | the regular plural of a lower-case word is a lower-case word ending in 's' |
| StrUtils.PluralizeRegular | boltons/strutils.py:147-160 | a lower-case word outside the irregular table gets the regular plural |
| StrUtils.RegularSingularUndoesRegularPlural | boltons/strutils.py:135-159 | the intended regular singular rules undo the regular plural rules on every word with an invertible plural |
| StrUtils.SingularOfIes | boltons/strutils.py:137-138 | 'ies' after a consonant goes back to 'y' |
| StrUtils.SingularOfEs | boltons/strutils.py:139-140 | 'es' after anything but 'i' is dropped |
| StrUtils.SingularOfS | boltons/strutils.py:141-142 | a final 's' after anything but 'e' is dropped |
| StrUtils.SingularizeUndoesPluralize | boltons/strutils.py:125-160 | singularize, with its 'ies' test on the character before the ending, recovers every lower-case word with an invertible regular plural from its plural |
| StrUtils.SingularizeUndoesRegularPlural | boltons/strutils.py:125-144 | the same, stated on the regular plural |
| StrUtils.SingularizeRegular | boltons/strutils.py:125-144 | a lower-case word ending in 's' outside the irregular table gets the regular singular |
| StrUtils.SingularizeAsWrittenRegular | boltons/strutils.py:125-144 | the same for singularize as written |
| StrUtils.SingularKeepsLowerCase | boltons/strutils.py:166-167 | the case of a lower-case word leaves its singular unchanged |
| StrUtils.SingularizeUnfolded | boltons/strutils.py:125-144 | the word's case imposed on the regular singular of its stripped, lower-cased form |
| StrUtils.SingularizeAsWrittenUnfolded | boltons/strutils.py:125-144 | the same for singularize as written |
| StrUtils.SingularizeAsWrittenMissesCity | boltons/strutils.py:137 | 'city' pluralises to 'cities', which singularize as written turns into 'citi'; the corrected rule gives 'city' |
| StrUtils.CardinalizeExamples | boltons/strutils.py:114-118 | 'vowel' with 5 gives 'vowels', 'Wish' with 3 gives 'Wishes', 'Wish' with 1 gives 'Wish' |
| StrUtils.PluralizeUnfolded | boltons/strutils.py:147-160 | the word's case imposed on the regular plural of its stripped, lower-cased form |
| StrUtils.MatchCaseCapitalized | boltons/strutils.py:170-171 | a capitalised master capitalises the disciple |

## Left out

- Locking: the `RLock` of `LRU` is left out, and every operation is treated as atomic.
- boltons/statsutils.py, boltons/statsutils2.py, boltons/dictutils.py, boltons/excutils.py, boltons/funcutils.py and the other context modules are not part of this model.
- fileutils outside `FilePerms` is left out because it is filesystem I/O. This covers `mkdir_p`, `AtomicSaver`, `atomic_rename`, `iter_find_files`, `copytree` and `FilePerms.from_path`.
- namedutils: the class synthesis through `exec`, pickling and `__repr__` are left out. Only the checks, renaming and the semantics of `_make`, `_asdict` and `_replace` are modelled. Whether a name is a keyword is a predicate given as a parameter.
- tableutils: these are left out:
  - `from_data`, `from_dict`, `from_list`, `from_object` and the `InputType` classes;
  - `to_html` and `__repr__`;
  - slices given to `__getitem__`.
  
  Cells are `None` or text, and `extend(None)` is treated like an empty list.
- strutils: these are left out because the model has no Unicode tables: `asciify`, `DeaccenterDict`, the `ascii` flag of `slugify` and `StringBuffer` (an I/O buffer). Strings are ASCII, so case conversion and `strip` follow the ASCII rules.
- formatutils: these are left out:
  - `split_format_str`, `tokenize_format_str` and `get_format_args`;
  - the subfield scan of `set_fspec`;
  - `DeferredValue`.
- listutils:
  - `_cur_size_limit` computes its limit with a floating-point logarithm. The model takes that limit as a parameter of at least 512, given per call.
  - Elements are integers, because `sort` needs an order.
  - `iter_slice`, `from_iterable` and slicing are not modelled.
- treeutils: the tree is modelled on values, not on shared mutable node lists.
  - Keys are integers, and `key_size` is 1.
  - The inner rotation loop is modelled as one fix per node.
  - The node that `delete` detaches is not pushed on the stack. It is balanced already, so rebalancing it changes nothing.
  - `iteritems`, `itervalues`, `pop`, `popleft`, non-integer sizes and the TypeError for unknown keyword arguments are left out.
- timeutils: the day and second counts are integer inputs. The `datetime` arithmetic and the `strftime` date text are left out, and the date text is an opaque string.
- mathutils: numbers are exact reals, so floating-point rounding is not modelled.
- queueutils: the priority is an exact real, and `int()` truncates it toward zero. The 32-bit limits of Python 2 integers are not modelled.
- IterUtils.ChunkedIter: the `fill` keyword is an `Option` parameter, so no other keyword can be passed, and the ValueError for unexpected keyword arguments (boltons/iterutils.py:115-116) cannot arise.
- CacheObjects.LRU.constructor: the `values` argument is left out. `LRU(values=v)` is the constructor followed by `Update` with `v`, which is what the source does with a non-empty `values`.
- cacheutils:
  - the `**F` keyword arguments of `LRU.update`;
  - `__repr__` and `__ne__`;
  - `LRU`'s unused `on_miss`.
- CacheUtils.SetItemWith: the ring invariant (`Valid`: dictionary, ring and recency order agree, at most `max_size` entries) is proved only for fresh keys and no deletion. Repeated keys and `del` keep only the weaker `WellFormed` (all link numbers in range).
- CacheUtils.SetItemWith: a user key `None` is not modelled. An emptied link's key is a marker distinct from every key of the cache, so evicting it always raises KeyError. In the source the marker is Python's `None`, so when the user has stored a key `None`, `super().__delitem__(oldkey)` deletes that entry and the set succeeds.
- CacheObjects.LRU.Update: proved to agree with `CacheUtils.Update`, which keeps only `WellFormed`, since a pair source may delete keys.
- setutils: `__reversed__`, `__repr__` and equality with objects that are not an `IndexedSet` are left out.
- FileUtils.FilePerms.Int: states only that `__int__` lies below 2^9. The value is the stored `integer`, whose bits FileUtils.FilePerms.Set and FileUtils.FilePerms.UpdateInteger state.

## Findings

| source | as written | input that shows it | evidently intended | confidence | as-written member | corrected member |
|---|---|---|---|---|---|---|
| boltons/cacheutils.py:83-102 | at capacity the new sentinel is bound only to a local `root`; `self.root` keeps the old root, which now holds a live entry | `LRU(max_size=1)`: set 'a', 'b', 'c'; the second eviction deletes key None and raises KeyError | `self.root` becomes the least-recent link, so each eviction drops the oldest key | not executed | CacheUtils.SecondEvictionFailsAsWritten | CacheUtils.SetFreshFull |
| boltons/setutils.py:61-66 | the trailing trim of `_cull` reads `ded[-(num_dead+1)]` | removing the newest of two or more items: the one dead slot is the last slot, and `ded[-2]` raises IndexError after the item has been removed | trailing dead slots are trimmed from the end of the list | not executed | SetUtils.RemoveNewestFailsAsWritten | SetUtils.CullKeeps |
| boltons/setutils.py:37-49 | `_compact` reads past the end of the dead list once the last dead slot is followed by a live slot | any dead slot while the last slot is live: IndexError part-way through | live items packed to the front, indices updated, no dead slots left | not executed | SetUtils.CompactFailsAsWritten | SetUtils.CompactKeeps |
| boltons/setutils.py:37-49 | `_compact` shifts live slots down but never updates `item_index_map` | slots dead, live, dead: the item moves to slot 0 while its index stays 1, past the end | indices follow the moved items | not executed | SetUtils.CompactStaleAsWritten | SetUtils.CompactKeeps |
| boltons/setutils.py:177-184 | `__getitem__` adds `bisect_left(dead, index)` to the logical index | a set whose slot 0 is dead: index 0 returns the dead-slot sentinel instead of the first item | the slot holding the index-th live item | not executed | SetUtils.GetItemSentinelAsWritten | SetUtils.SlotFound |
| boltons/setutils.py:186-200 | `pop` with an index other than the last never binds `ret` | `pop(0)` on a set of two items | remove and return the item at that position | not executed | SetUtils.PopFirstFailsAsWritten | SetUtils.PopIndexSpec |
| boltons/queueutils.py:28-29 | `add` of a task already queued calls the undefined `remove_task` | `add(t)` twice: AttributeError on the second call | the old entry is removed and `task` re-queued with the new priority | not executed | QueueUtils.HeapPriorityQueue.Add | QueueUtils.HeapPriorityQueue.AddReplacing |
| boltons/listutils.py:62-71 | with one sublist `insert` inserts the item into the sublist and then again into the list | `BarrelList([1, 2]).insert(0, 9)` gives `[9, 9, 1, 2]` | the item is inserted once | not executed | ListUtils.InsertTwice | ListUtils.InsertFixedOnce |
| boltons/listutils.py:35-46 | `_translate_index` accepts an index at or past the length | `BarrelList([1, 2])` with index 2 translates to sublist 0, position 0, the first item | IndexError for an index out of range | not executed | ListUtils.TranslatePastEnd | ListUtils.TranslateCheckedSpec |
| boltons/listutils.py:153-160 | `sort` with several sublists writes the merged result into `lists[0]` and keeps `lists[1:]` | sublists `[2]` and `[1]` give `[1, 2, 1]` | the sorted elements, each once | not executed | ListUtils.SortDuplicatesExample | ListUtils.SortFixedSpec |
| boltons/tableutils.py:140-163 | `headers or []` keeps the missing-headers sentinel, an object that is always truthy | `Table().extend([[1]])` raises TypeError in `_set_width` | a table without headers, its width taken from the rows | not executed | TableUtils.SentinelHeaders | TableUtils.FixedHeadersExtend |
| boltons/strutils.py:137 | the 'ies' rule of `singularize` tests `word[-5:-4]`, two characters before the ending | 'cities' (the plural of 'city') becomes 'citi' | test the character right before 'ies', undoing `pluralize` | not executed | StrUtils.SingularizeAsWrittenMissesCity | StrUtils.SingularizeUndoesPluralize |
| boltons/iterutils.py:43-47 | `maxsplit=0` yields `[src]`, a group holding the source as one element | `split([1, 2], maxsplit=0)` gives `[[[1, 2]]]` | one group made of the source's elements, as `str.split` does and as iterutils.py:17-20 returns | not executed | IterUtils.SplitIterAsWritten | IterUtils.SplitIter |
| boltons/namedutils.py:193-200 | the namedlist `_make` builds its result with `list.__new__(cls, iterable)`, which ignores the iterable, so the length test always sees 0 values | `Point._make([1, 2])` for a namedlist `Point` with fields x and y raises TypeError, and so does `p._replace(x=100)` (lines 211-216), against the docstring example at lines 250-251 | a record holding the values when there are as many as fields | not executed | NamedUtils.NamedListMakeFails | NamedUtils.Make |
| boltons/setutils.py:186-200 | `pop` with a negative index still negative after adding `len(s)` inserts that negative slot into `dead_indices` and reads it as a Python negative list index | `pop(-3)` on a set of two items with no dead slots unlists the newest item and raises UnboundLocalError | IndexError, with the set unchanged | not executed | SetUtils.PopBeforeStartAsWritten | SetUtils.PopIndexSpec |
| boltons/fileutils.py:128-135 | `from_int` drops leading zero octal groups, so the remaining groups land in the wrong parties | `from_int(0o044)` gives user 'r', group 'r', other '' (0o440) | each octal digit in its own party, so that `int(from_int(i)) == i & 0o777` | not executed | FileUtils.FromInt044 | FileUtils.FromIntFixedExact |
| boltons/fileutils.py:106-112 | assigning a permission string only ORs its bits into the integer, so the bits of the string it replaces stay set | `fp = FilePerms('rwx')`, then `fp.user = 'r'`: `int(fp)` is 0o700 while `fp.user` is 'r' | the integer follows the strings: 0o400 | not executed | FileUtils.StaleBitsKept | FileUtils.AssignFixedExact |
