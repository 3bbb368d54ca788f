# galib core in Dafny

This project models the core of galib, a C++ utility library, and proves properties of the model. It covers five groups:

- **Intrusive containers** (`intrusive_containers.h`, and its older copies under `GaLib/include/galib/intrusive/`):
  - the circular doubly linked `Link`;
  - the `List` with its sentinel;
  - the chained `HashSet` and the power-of-two `Dictionary`;
  - the list and dictionary iterators.
- **The tiered LRU `Cache`** (`cache.h`): lookup, fetch-with-creation and promotion, removal, and the eviction cascade between tiers.
- **Path and string functions**:
  - from `file_system.cpp`: splitting, parent, file name and extension, strictness checks, `combine`, relative and simplified paths;
  - from `tools/cmaker/CMaker.cpp`: `split`, `join`, `replaceAll`, separator cleaning, and the virtual-folder rewrite.
- **Codecs and arithmetic**:
  - Base64 encoding and decoding (RFC 4648, section 4 alphabet);
  - the 64-bit FNV-1a `hash_string`;
  - millisecond `TimeInterval`/`DateTime` arithmetic and the `parseGeneric` digit scanner.
- **Small stateful objects**: `Nullable<T>`, `StringReader`/`BufferedReader`, and the `GaObject` parent/child tree.

## How the C++ is represented

**Pointers and links**
- Objects that embed a `Link` are handles into an arena.
- Each link field is a `Chain`, a pair of `next`/`prev` maps.
- The member-pointer offset arithmetic of `getLink`/`getData`/`owner` is the identity on handles.
- A list is described by the relation `ListIs(chain, sentinel, members)`.
- A hash container is described by its buckets as sequences of handles.

**The cache**
- The cache works over those abstractions: each tier is a list of handles (most recent first) and a key-to-handle map.
- The three virtual hooks are function parameters: the factory, the level-change callback and the size estimate.

**Integer widths**
- `size_t` is 64 bits.
- `memUsage` and the reader offsets wrap modulo 2^64.
- The hash uses `bv64`.
- `TimeInterval` construction wraps at 32 bits and `DateTime` arithmetic at 64 bits.
- C++ division toward zero is written out explicitly.

**Characters and bytes**
- Bytes are naturals below 256.
- Strings are `seq<char>`.
- Where the source reads a plain `char`, a `signedChar` flag selects the platform's signedness.

**I/O**
- `IReader` is a `Source` holding a queue of chunks, one per `read` call.
- `Nullable`'s `T()` is a parameter `zero`.

**Findings**
- Where the source has a defect, the model keeps the code as written next to the corrected version. An `asWritten` or `chargeOldTier` flag selects between them, or the as-written version is a separate function.
- The rest of the model uses the corrected version. In particular `getRelativePath` and `getSimplePath` call `splitPath`. Their main definitions and lemmas use the corrected split, and `GetRelativePathAsWritten` and `GetSimplePathAsWritten` keep the as-written one.

## Model

| member | source | states |
|---|---|---|
| Links.Construct | intrusive_containers.h:51 | a fresh link is a self-loop and is not linked |
| Links.Unlink | intrusive_containers.h:72-75 | after `unlink` the link is a self-loop again; no link disappears from the arena |
| Links.RemoveFromList | intrusive_containers.h:67-70 | detaching from the neighbours keeps every link in the arena |
| Links.InsertAfter | intrusive_containers.h:77-85 | inserting after an anchor keeps every link in the arena |
| Links.InsertBefore | intrusive_containers.h:87-105 | inserting before an anchor keeps every link in the arena |
| Links.Next | intrusive_containers.h:111-116 | `next` is null exactly when the link is unlinked, and otherwise it is the successor |
| Links.Prev | intrusive_containers.h:118-123 | `prev` is null exactly when the link is its own predecessor, and otherwise the predecessor |
| Links.Destroy | intrusive_containers.h:53 | the destructor removes the link from the arena |
| Links.ConstructValid | intrusive_containers.h:51 | adding a fresh link keeps the chain well formed (`next` and `prev` are mutual inverses) |
| Links.UnlinkValid | intrusive_containers.h:72-75 | unlinking keeps the chain well formed and the set of links unchanged |
| Links.InsertAfterValid | intrusive_containers.h:77-85 | after `insertAfter` the chain is well formed and the link sits directly after the anchor, whatever chain it was in before |
| Links.InsertBeforeValid | intrusive_containers.h:87-95 | after `insertBefore` the chain is well formed and the link sits directly before the anchor |
| Links.SameSpliceAfterUnlink | intrusive_containers.h:67-85 | detaching without restoring the self-loop, then splicing, is the same as a full unlink then splicing, so a re-inserted member moves and is never duplicated |
| Links.SameSpliceBeforeUnlink | intrusive_containers.h:67-95 | the same for `insertBefore` |
| Links.SpliceAfterValid | intrusive_containers.h:80-84 | splicing a lone link after an anchor keeps the chain well formed, with the link after the anchor |
| Links.SpliceBeforeValid | intrusive_containers.h:90-94 | splicing a lone link before an anchor keeps the chain well formed, with the link before the anchor |
| Links.DestroyValid | intrusive_containers.h:53 | destroying a link leaves a well-formed chain, so a deleted member vanishes from its list |
| Links.UnlinkFrame | intrusive_containers.h:72-75 | unlinking changes only the link and its two neighbours |
| Links.DestroyFrame | intrusive_containers.h:53 | destruction changes only the link and its two neighbours, and adds no link |
| Links.UnlinkKeepsLone | intrusive_containers.h:72-75 | other unlinked links stay unlinked |
| Links.UnlinkIdempotent | intrusive_containers.h:72-75 | unlinking twice is the same as unlinking once |
| Links.LinkedEitherWay | intrusive_containers.h:65 | in a well-formed chain, `isLinked` (next is not self) agrees with "prev is not self" |
| Links.SpliceBeforeIsAfterPrev | intrusive_containers.h:87-95 | inserting before an anchor is inserting after the anchor's predecessor |
| Lists.RingRemove | intrusive_containers.h:72-75 | unlinking the k-th element of a ring leaves the ring without it and the element alone |
| Lists.RingSplice | intrusive_containers.h:80-84 | splicing a lone link after the k-th ring element places it at position k+1 |
| Lists.RingOutside | intrusive_containers.h:72-75 | unlinking a link that is not in a ring leaves the ring intact |
| Lists.InsertAfterRing | intrusive_containers.h:77-85 | `insertAfter` on the k-th ring position inserts the node into the member sequence at k and keeps the chain valid |
| Lists.InsertBeforeRing | intrusive_containers.h:87-95 | `insertBefore` on a ring position is `insertAfter` on the previous ring position, wrapping from the sentinel to the tail |
| Lists.QueriesRead | intrusive_containers.h:399-401 | `isEmpty` holds exactly when there are no members, and `head`/`tail` are the first/last member or null when empty |
| Lists.NeighboursRead | intrusive_containers.h:465-489 | `next`/`prev` of a member give the neighbouring member, or null at the tail/head |
| Lists.InsertHeadPrepends | intrusive_containers.h:421-423 | `insertHead` makes the node the first member |
| Lists.InsertHeadsReverse | intrusive_containers.h:421-423 | successive `insertHead`s of fresh distinct nodes list them in reverse order of insertion, before the old members |
| Lists.InsertHeadThree | GaLibTest/intrusive/ilist.cpp:95-100 | inserting n3, n2 and n1 at the head of an empty list gives n1, n2, n3 |
| Lists.InsertTailAppends | intrusive_containers.h:425-427 | `insertTail` makes the node the last member |
| Lists.InsertBeforeNodePlaces | intrusive_containers.h:429-436 | `insertBefore` with a null anchor appends; with member i as anchor the node becomes member i |
| Lists.InsertAfterNodePlaces | intrusive_containers.h:438-445 | `insertAfter` with a null anchor appends; with member i as anchor the node becomes member i+1 |
| Lists.UnlinkHead | intrusive_containers.h:403-410 | unlinking the head leaves the rest of the list |
| Lists.SentinelNotListed | intrusive_containers.h:388-395 | the sentinel is never a member and no member is listed twice |
| Lists.UnlinkAll | intrusive_containers.h:403-410 | afterwards the list is empty and every former member is unlinked but still alive; other links are untouched |
| Lists.DeleteAll | intrusive_containers.h:412-419 | afterwards the list is empty and every former member is destroyed; other links are untouched |
| Lists.IteratorMoves | intrusive_containers.h:130-212 | `begin` is position 0, `end` is past the last member, `++` moves one member forward and stays at `end`, and `--` moves back, from the head to `end` |
| Lists.SameIteratorIsSameIndex | intrusive_containers.h:208-210 | two iterators compare equal exactly when they are at the same position |
| Lists.WalkVisits | intrusive_containers.h:186-197 | walking with `++` from position i visits the remaining members in order |
| Lists.ForwardIteration | intrusive_containers.h:494-510 | iterating from `begin` visits exactly the members, in list order |
| Dictionaries.BucketIndexIsMod | intrusive_containers.h:764-768 | for a power-of-two size, `hash & (size-1)` is `hash mod size` and always a valid bucket |
| Dictionaries.EmptyBuckets | intrusive_containers.h:711-729 | the constructors allocate the requested number of empty buckets |
| Dictionaries.CalculateCapacity | intrusive_containers.h:755-762 | the capacity is the least power of two that is at least both 16 and n |
| Dictionaries.NewDefault | intrusive_containers.h:711-718 | the default dictionary has 32 empty buckets |
| Dictionaries.NewSized | intrusive_containers.h:720-729 | the sized dictionary has a power-of-two count of at least max(16, n) empty buckets |
| Dictionaries.EmptyWellFormed | intrusive_containers.h:720-729 | an empty power-of-two dictionary is well formed and holds no entry |
| Dictionaries.DefaultWellFormed | intrusive_containers.h:711-718 | the default dictionary is well formed |
| Dictionaries.Get | intrusive_containers.h:823-835 | `get` finds an entry with an equal key, and returns null exactly when no held entry has that key |
| Dictionaries.Put | intrusive_containers.h:837-850 | `put` succeeds exactly when no entry has an equal key; on failure nothing changes, and on success the entry joins the end of its key's bucket |
| Dictionaries.PutThenGet | intrusive_containers.h:823-850 | after a successful `put` the dictionary stays well formed and the new entry is the only one with its key |
| Dictionaries.IsEmpty | intrusive_containers.h:770-778 | `isEmpty` holds exactly when every bucket chain is empty |
| Dictionaries.EmptyCount | intrusive_containers.h:770-778 | empty buckets hold no entry |
| Dictionaries.CountZero | intrusive_containers.h:770-778 | the entry count is zero exactly when every bucket is empty |
| Dictionaries.CountCollisions | intrusive_containers.h:780-795 | the collision count is the number of entries minus the number of non-empty buckets |
| Dictionaries.NoCollisions | intrusive_containers.h:780-795 | there are no collisions exactly when every bucket holds at most one entry |
| Dictionaries.CollisionsAtLeastZero | intrusive_containers.h:780-795 | the collision count is never negative and is at least entries minus buckets |
| Dictionaries.Resize | intrusive_containers.h:731-744 | `resize` succeeds exactly on an empty dictionary, with the new power-of-two capacity; otherwise nothing changes |
| Dictionaries.UnlinkAll | intrusive_containers.h:797-808 | every bucket ends empty and every former entry is released, bucket by bucket |
| Dictionaries.PositionOf | intrusive_containers.h:267-281 | the position of a handle within its bucket is its first occurrence |
| Dictionaries.UpdateNextBucket | intrusive_containers.h:309-318 | the iterator moves to the head of the next non-empty bucket, or to `end` |
| Dictionaries.Increment | intrusive_containers.h:267-281 | `++` keeps the iterator on a real entry or at `end` |
| Dictionaries.ForwardIteration | intrusive_containers.h:221-318 | iterating from `begin` visits every entry exactly once, bucket by bucket and in chain order |
| Dictionaries.EndIsFixed | intrusive_containers.h:267-281 | `end` is past the last bucket, and `++` on `end` stays at `end` |
| Dictionaries.WellFormedDistinct | intrusive_containers.h:837-850 | no entry appears twice in a well-formed dictionary |
| HashSets.New | intrusive_containers.h:553-562 | a new set has n empty buckets |
| HashSets.GetBucket | intrusive_containers.h:573-581 | a null value has no bucket, and any other value's bucket is its hash modulo the bucket count |
| HashSets.Put | intrusive_containers.h:634-650 | `put` keeps the bucket count |
| HashSets.ScanNeverAdvances | intrusive_containers.h:624-629 | as written, `contains` and `put` loop forever on a bucket whose head is another value; the corrected scan answers false or appends |
| HashSets.AsWrittenAgreesWhenItReturns | intrusive_containers.h:619-650 | whenever the as-written scan returns, it returns what the corrected scan does |
| HashSets.AsWrittenReturnsIff | intrusive_containers.h:642-647 | the as-written scans return exactly when the value's bucket is empty or headed by the value |
| HashSets.ContainsIsMember | intrusive_containers.h:619-632 | `contains` is true exactly for a non-null member |
| HashSets.PutAdds | intrusive_containers.h:634-650 | `put` returns true exactly for a new non-null value; afterwards the value is contained and membership of every other value is unchanged |
| HashSets.PutTwice | intrusive_containers.h:634-650 | a second `put` of the same value returns false and changes nothing |
| HashSets.IsEmpty | intrusive_containers.h:583-591 | `isEmpty` holds exactly when every bucket is empty |
| HashSets.UnlinkAll | intrusive_containers.h:593-604 | every bucket ends empty and every former member is released |
| CacheState.Without | cache.h:122-132 | unlinking from a tier's list removes exactly that entry |
| CacheState.WithoutDistinct | cache.h:122-132 | removing an entry from a list without repeats shortens it by one |
| CacheState.SumWithout | cache.h:154-156 | a tier's charged memory without an entry is the total minus that entry's last size |
| CacheState.AddMod | cache.h:115 | adding to a `size_t` memory counter is addition modulo 2^64 |
| CacheState.SubMod | cache.h:155 | subtracting a size that was added cancels the addition modulo 2^64 |
| CacheState.Leave | cache.h:129-132 | an entry leaving a tier is removed from its list, and the tier's count drops by one |
| CacheState.Arrive | cache.h:137-140 | an entry joining a tier becomes the head of its list, and the tier's count rises by one |
| CacheState.Admit | cache.h:103-111 | a new `KeyValue` gets the next free handle and the estimated size |
| CacheState.Refresh | cache.h:122-127 | a hit in the target tier moves the entry to the head of its list and leaves the tier's dictionary and count alone |
| CacheState.Delete | cache.h:150-158 | removal takes the entry out of the store and its tier; count drops by one and memory drops by the last size, modulo 2^64 |
| CacheState.LeaveKeeps | cache.h:128-134 | after leaving, the cache structure holds and the entry is in no tier |
| CacheState.LeaveCharged | cache.h:128-134 | leaving keeps every tier's memory equal to the sum of its entries' sizes |
| CacheState.ArriveKeeps | cache.h:136-140 | a loose entry joining any tier keeps the structure: each key in at most one tier, count equal to list length |
| CacheState.ArriveCharged | cache.h:136-141 | a loose entry joining a tier, charged to that same tier, keeps every tier's memory equal to the sum of its entries' sizes |
| CacheState.AdmitKeeps | cache.h:101-119 | a new entry for an absent key keeps the structure and the memory invariant |
| CacheState.RefreshKeeps | cache.h:122-127 | moving an entry to the head of its list keeps the structure |
| CacheState.RefreshCharged | cache.h:122-127 | moving an entry to the head of its list keeps the memory invariant |
| CacheState.DeleteKeeps | cache.h:150-158 | removal keeps the structure, and the key is in no tier afterwards |
| CacheState.DeleteCharged | cache.h:150-158 | removal keeps the memory invariant |
| Caches.NewCache | cache.h:23-31 | a new cache has `TMaxLevel` empty tiers with zero count and memory |
| Caches.NewCacheInv | cache.h:198 | a new cache satisfies the full invariant |
| Caches.ConfigureLevel | cache.h:39-44 | out-of-range levels are ignored; otherwise only that tier's two limits change |
| Caches.ConfigureKeeps | cache.h:39-44 | configuring a tier keeps the invariant |
| Caches.FindFrom | cache.h:161-172 | the search from tier i reports the lowest tier at or above i holding the key, or nothing when no such tier has it |
| Caches.FindKeyValue | cache.h:161-172 | `findKeyValue` reports the lowest tier holding the key, or null exactly when no tier has it |
| Caches.FindUnique | cache.h:161-172 | since a key is in at most one tier, `findKeyValue` reports the tier that holds it |
| Caches.FindPtr | cache.h:62-68 | `findPtr` is null exactly when the key is absent, and otherwise points at that entry's value; it changes nothing |
| Caches.Find | cache.h:54-60 | `find` returns the default value for an absent key and the stored value otherwise |
| Caches.Evict | cache.h:178-193 | one eviction moves the tail of tier i to the head of tier i+1, and no other tier changes |
| Caches.Drain | cache.h:178-193 | after evicting from tier i, it is within capacity or holds at most one entry, and tiers other than i and i+1 are untouched |
| Caches.DrainEnds | cache.h:178-193 | evicted entries come in front of the next tier's existing list, which keeps its order at the end |
| Caches.EnsureLevelLimits | cache.h:174-195 | every tier from the start level to the second last is within capacity or holds at most one entry; tiers below the start are untouched; no entry is lost |
| Caches.EnsurePrefix | cache.h:178-193 | the start tier keeps a prefix of its list and is never emptied |
| Caches.EnsureLast | cache.h:174-195 | the last tier is never evicted from; it only gains entries at its head |
| Caches.EnsureInv | cache.h:174-195 | the cascade keeps the full invariant |
| Caches.DrainInv | cache.h:178-193 | evicting from one tier keeps the full invariant |
| Caches.EnsureKeepsTier | cache.h:174-195 | entries that stay in the start tier keep their stored data |
| Caches.TargetLevel | cache.h:91-99 | the requested level is clamped to the valid tiers, and a negative request means the current tier of a hit, or tier 0 |
| Caches.GetKeyValuePlaces | cache.h:86-148 | null is returned exactly when the key is missing and the factory declines, and then nothing changes; a hit returns the existing entry, a miss stores the new value with its estimated size; the result heads the target tier and is found there |
| Caches.PlacesNew | cache.h:101-119 | on a miss the new entry heads the target tier |
| Caches.PlacesRefreshed | cache.h:122-127 | a hit in the target tier moves the entry to its head |
| Caches.PlacesMoved | cache.h:128-144 | a hit in another tier moves the entry to the head of the target tier |
| Caches.GetKeyValueInv | cache.h:86-148 | the corrected `getKeyValue` keeps the full invariant: counts equal list lengths, each key in at most one tier, and memory equal to the sum of sizes |
| Caches.GetPtr | cache.h:78-84 | `getPtr` is null exactly when the key is missing and the factory declines; otherwise it is what `findPtr` then reports |
| Caches.Get | cache.h:70-76 | `get` returns the default value and changes nothing when nothing is created; otherwise it returns the value `findPtr` then reports |
| Caches.Remove | cache.h:150-158 | removing an absent key changes nothing |
| Caches.RemoveInv | cache.h:150-158 | removal keeps the full invariant |
| Caches.RemoveDrops | cache.h:150-158 | after `remove` the key is absent and its entry freed, and lookups of other keys are unchanged |
| Caches.RelocationOutcome | cache.h:141 | moving an entry from tier 0 to tier 1 charges its size to tier 0 as written, and to tier 1 once corrected |
| Caches.RelocationChargesOldTier | cache.h:141 | as written, the empty tier 0 is left charged with 8 bytes and the invariant breaks; a later `remove` wraps tier 1's memory to 2^64-8, which is over capacity; the corrected version keeps the invariant |
| Paths.SumBSandS | file_system.cpp:191-199 | the two counts are the numbers of backslashes and slashes in both strings together |
| Paths.CountAppend | file_system.cpp:191-199 | character counts add over concatenation |
| Paths.OneKind | file_system.cpp:440 | a separator kind is chosen exactly when only backslashes or only slashes occur |
| Paths.SplitPath | file_system.cpp:388-427 | the corrected split yields every non-empty separator-free component in order |
| Paths.SplitPathAsWritten | file_system.cpp:388-427 | the loop as written computes the as-written result, which drops a short last component |
| Paths.ComponentsAreComponents | file_system.cpp:388-427 | every component is non-empty and free of separators |
| Paths.ComponentsAppend | file_system.cpp:388-427 | components of a concatenation split at a separator are the components of each side |
| Paths.ComponentsOfJoin | file_system.cpp:388-427 | splitting components joined by one separator gives them back |
| Paths.SplitPathExamplesDir | tests/filesystem_tests.cpp:73-79 | as written, "dir" and "/dir" split to nothing, while the tests expect ["dir"] |
| Paths.SplitPathExampleShortTail | file_system.cpp:423 | as written, "a/b" splits to ["a"] |
| Paths.SplitPathDropsLast | file_system.cpp:423 | the as-written split differs from the components on "dir", "/dir" and "a/b" |
| Paths.GetFilename | file_system.cpp:272-282 | the file name is what follows the last separator at index 1 or later, or the whole path when there is none |
| Paths.FileExtensionPtr | file_system.cpp:239-262 | a null path gives null; otherwise the extension is the non-empty dot-free text after the last '.' before the NUL, or null when there is no '.' or the string ends in '.' |
| Paths.FileExtension | file_system.cpp:264-270 | the string overload gives "" where the pointer overload gives null |
| Paths.GetParent | file_system.cpp:342-359 | the parent is the prefix ending at the last qualifying separator, skipping trailing separators and "." components, or "" when none qualifies |
| Paths.StrictScanIff | file_system.cpp:290-310 | the character scan accepts exactly alphanumerics, '-', '_' and specials, with no two specials adjacent |
| Paths.IsStrictFilename | file_system.cpp:284-311 | strict file names are 1 to 1024 characters of alphanumerics, '-', '_' and '.', with no two dots adjacent |
| Paths.IsStrictNormalizedUrl | file_system.cpp:313-340 | strict URLs are the same, with '/', '\\' and '.' as mutually non-adjacent specials |
| Paths.Combine | file_system.cpp:361-386 | a doubled separator at the join is dropped, a missing one is inserted ('\\' when either side has a backslash), and otherwise the strings are concatenated |
| Paths.CombineComponents | file_system.cpp:361-386 | the components of the combination are those of the first path followed by those of the second |
| Paths.CombineExamples | tests/filesystem_tests.cpp:32-47 | the test cases combine as expected |
| Paths.CommonLength | file_system.cpp:444-452 | the common prefix length counts the equal leading components and stops at the first difference |
| Paths.GetRelativePathOver | file_system.cpp:429-443 | with either split, `getRelativePath` fails exactly when a path is not absolute or the separators are mixed or absent |
| Paths.GetRelativePathAsWritten | file_system.cpp:442-443 | `getRelativePath` on the as-written split fails on exactly the same paths as on the corrected one |
| Paths.RelativePathFails | file_system.cpp:429-481 | `getRelativePath` fails exactly when a path is not absolute or the separators are mixed or absent |
| Paths.RelativePathMeaning | file_system.cpp:429-481 | on the corrected split, the relative path climbs one ".." per `from` component past the common prefix and then descends through the rest of `to`, ending in a separator exactly when `to` does |
| Paths.RelativePathClimbs | file_system.cpp:454-474 | on the corrected split, the components of the relative path are the climbs followed by the remaining `to` components |
| Paths.RelativePathEnds | file_system.cpp:475-478 | the relative path keeps a trailing separator exactly when `to` has one |
| Paths.RelativePathExample | tests/filesystem_tests.cpp:159-206 | "/root/abc/def" to "/root/abc/file.txt" is "../file.txt", and a relative `from` fails |
| Paths.DotDotCancels | file_system.cpp:497-514 | ".." cancels the preceding normal component |
| Paths.GetSimplePath | file_system.cpp:483-533 | `getSimplePath` on the corrected split fails exactly when the path has no separator or mixes both kinds |
| Paths.GetSimplePathOver | file_system.cpp:483-495 | with either split, `getSimplePath` fails exactly when the path has no separator or mixes both kinds |
| Paths.GetSimplePathAsWritten | file_system.cpp:494 | `getSimplePath` on the as-written split fails on exactly the same paths as on the corrected one |
| Paths.SimplePathAsWrittenExample | file_system.cpp:494 | as written "/a/b" simplifies to "/a", where the corrected split gives "/a/b" |
| Paths.RelativePathAsWrittenSiblings | file_system.cpp:442-443 | as written the relative path from "/a/b" to "/a/c" is "", where the corrected split gives "../c" |
| Paths.RelativePathAsWrittenFromRoot | file_system.cpp:442-443 | as written the relative path from "/root" to "/root/abc" is "root/abc", where the corrected split gives "abc" |
| Paths.AsWrittenAgreesOnDirectories | file_system.cpp:423-425 | on paths ending in a separator, both operations give the same result with either split |
| Paths.SimplePathMeaning | file_system.cpp:483-533 | on the corrected split, a simplified path has no "." components, no ".." when absolute, and ".." only at its start |
| CMaker.FindSpec | tools/cmaker/CMaker.cpp:100-109 | `find` reports the first occurrence at or after the start, or none |
| CMaker.Split | tools/cmaker/CMaker.cpp:74-85 | the corrected split always yields at least one piece |
| CMaker.SplitFree | tools/cmaker/CMaker.cpp:74-85 | no piece contains the separator |
| CMaker.ScanSplits | tools/cmaker/CMaker.cpp:75-80 | the search loop emits the pieces before the last separator, and the rest is the last piece |
| CMaker.SplitAsWrittenDropsShortTail | tools/cmaker/CMaker.cpp:82 | as written, split is the full split with a last piece shorter than 2 characters dropped, except on empty input |
| CMaker.SplitAsWrittenExamples | tools/cmaker/CMaker.cpp:82 | as written, "a;b" splits to ["a"] and "" to [""] |
| CMaker.JoinParts | tools/cmaker/CMaker.cpp:87-98 | `join` of nothing is "", of one element is that element, and otherwise puts one separator between neighbours |
| CMaker.SplitJoin | tools/cmaker/CMaker.cpp:74-98 | splitting a join by a separator character that no part contains gives the parts back |
| CMaker.JoinSplit | tools/cmaker/CMaker.cpp:74-98 | joining the split with the same separator gives the original string |
| CMaker.ReplaceAll | tools/cmaker/CMaker.cpp:100-109 | an empty pattern changes nothing; otherwise the result is the left-to-right non-overlapping replacement of the original, never rescanning inserted text |
| CMaker.ReplacedIsJoinSplit | tools/cmaker/CMaker.cpp:100-109 | replacing every occurrence is splitting at the pattern and joining with the replacement |
| CMaker.ReplacedSame | tools/cmaker/CMaker.cpp:100-109 | replacing a pattern by itself changes nothing |
| CMaker.CleanPathSeparators | tools/cmaker/CMaker.cpp:111-117 | length is preserved, every separator becomes the chosen one, and other characters stay |
| CMaker.CleanComponents | tools/cmaker/CMaker.cpp:111-117 | cleaning separators keeps the path components |
| CMaker.CleanUsesOneSeparator | tools/cmaker/CMaker.cpp:111-117 | after cleaning, every separator is the chosen one |
| CMaker.Rewrite | tools/cmaker/CMaker.cpp:156-180 | a piece starts with "CMake Files\\" exactly when its rewrite does |
| CMaker.RewriteAll | tools/cmaker/CMaker.cpp:156-180 | every piece is rewritten on its own, in order |
| CMaker.RewriteKeepsOthers | tools/cmaker/CMaker.cpp:158-159 | pieces outside "CMake Files\\" are unchanged |
| CMaker.RewriteReplacesOldPrefix | tools/cmaker/CMaker.cpp:163-166 | a piece under the old virtual prefix gets the new prefix in its place |
| CMaker.RewriteMovesUsr | tools/cmaker/CMaker.cpp:167-177 | a piece whose simplified build path is under /usr/ moves below the virtual prefix and contains no forward slash |
| CMaker.AddPrefixKeepsPlainValue | tools/cmaker/CMaker.cpp:147-190 | a value with no "CMake Files\\" piece is unchanged |
| CMaker.AddPrefixPieces | tools/cmaker/CMaker.cpp:183-189 | when no rewritten piece contains ';', the rewritten value splits into the rewritten pieces, in order |
| CMaker.AddPrefixAsWrittenDropsEntry | tools/cmaker/CMaker.cpp:82 | as written, "a;b" loses its last piece; corrected, it is unchanged |
| Base64.SextetOfLetter | GaLib/include/galib/encoding/base64.h:91-103 | the decode table inverts the alphabet |
| Base64.LetterOfSextet | GaLib/include/galib/encoding/base64.h:91-103 | every byte the decode table maps to a sextet is that sextet's letter |
| Base64.EncodeLength | GaLib/include/galib/encoding/base64.h:16-88 | the encoding has 4 characters per started group of 3 bytes, with (3 - n mod 3) mod 3 padding characters |
| Base64.Put | GaLib/include/galib/encoding/base64.h:42-51 | a character is written exactly when there is room before `resultSize` |
| Base64.EncodeInto | GaLib/include/galib/encoding/base64.h:16-88 | it never writes at or past `resultSize`; it returns 0 when the encoding plus the NUL does not fit, and otherwise the encoding's length after writing it and a NUL |
| Base64.GroupSplit | GaLib/include/galib/encoding/base64.h:25-39 | each group of 3 bytes gives 2, 3 or 4 letters from its sextets |
| Base64.Decode | GaLib/include/galib/encoding/base64.h:90-152 | the decoder never writes more than `*inOutLen` bytes; it either returns and stores the count produced, or returns 0 with `*inOutLen` unchanged |
| Base64.StopsAtEquals | GaLib/include/galib/encoding/base64.h:118-120 | everything after the first '=' is ignored |
| Base64.SkipsTab | GaLib/include/galib/encoding/base64.h:116 | a tab is skipped |
| Base64.FailsOnInvalid | GaLib/include/galib/encoding/base64.h:117 | an invalid byte before any '=' makes decoding fail with 0 |
| Base64.AsWrittenAgreesBelow0x80 | GaLib/include/galib/encoding/base64.h:113 | on 7-bit input the signed read is harmless |
| Base64.SignedCharReadsOutsideTable | GaLib/include/galib/encoding/base64.h:113 | as written, byte 0xFF indexes the table at -1; corrected, it is an invalid byte |
| Base64.DecodeFour | GaLib/include/galib/encoding/base64.h:122-131 | four letters of a group decode to its three bytes |
| Base64.DecodeThree | GaLib/include/galib/encoding/base64.h:135-141 | three letters before '=' leave the buffer that yields two bytes |
| Base64.DecodeTwo | GaLib/include/galib/encoding/base64.h:143-148 | two letters before '=' leave the buffer that yields one byte |
| Base64.TailOfTwo | GaLib/include/galib/encoding/base64.h:135-141 | a buffer marked with 18 bits yields the two original bytes |
| Base64.TailOfOne | GaLib/include/galib/encoding/base64.h:143-148 | a buffer marked with 12 bits yields the original byte |
| Base64.RoundTrip | GaLibTest/encoding/base64.cpp:7-42 | decoding an encoding, with room for the bytes, gives back the original bytes and length |
| Base64.EncodesToF | GaLib/include/galib/encoding/base64.h:16-88 | "f" encodes to "Zg==" (RFC 4648 section 10) |
| Base64.EncodesToFo | GaLib/include/galib/encoding/base64.h:16-88 | "fo" encodes to "Zm8=" |
| Base64.EncodesToFoo | GaLib/include/galib/encoding/base64.h:16-88 | "foo" encodes to "Zm9v" |
| Base64.EncodesToFoobar | GaLib/include/galib/encoding/base64.h:16-88 | "foobar" encodes to "Zm9vYmFy" |
| Base64.DecodeThreeDigitTail | GaLib/include/galib/encoding/base64.h:135-141 | a leftover of 3 sextets yields 2 bytes |
| Base64.DecodeTwoDigitTail | GaLib/include/galib/encoding/base64.h:143-148 | a leftover of 2 sextets yields 1 byte |
| Base64.DecodeOneDigitTail | GaLib/include/galib/encoding/base64.h:133-149 | a leftover single sextet is dropped |
| Base64.DecodeTooSmall | GaLib/include/galib/encoding/base64.h:127-128 | output that would exceed `*inOutLen` fails with 0 |
| Base64.ZeroIsAmbiguous | GaLib/include/galib/encoding/base64.h:82-87 | encoding empty input, decoding empty or pad-only input, and failing all return 0 |
| Hash.ShiftSumIsPrime | GaLib/include/galib/util/hash.h:36 | the shift-sum is multiplication by the FNV prime 0x100000001b3 modulo 2^64 |
| Hash.Widen | GaLib/include/galib/util/hash.h:33 | the widened byte keeps its low 8 bits; the upper bits are all set exactly for a signed `char` of 0x80 or more |
| Hash.HashString | GaLib/include/galib/util/hash.h:20-43 | the hash of no bytes is the FNV-1a 64-bit offset basis |
| Hash.HashIsFnv1a | GaLib/include/galib/util/hash.h:20-43 | with unsigned bytes, `hash_string` is FNV-1a |
| Hash.HashAppend | GaLib/include/galib/util/hash.h:32-40 | the hash is a left fold: one more byte is one XOR and one multiplication by the prime |
| Hash.HashOfA | GaLib/include/galib/util/hash.h:20-43 | "a" hashes to the published FNV-1a value 0xaf63dc4c8601ec8c |
| Hash.SignedAgreesBelow0x80 | GaLib/include/galib/util/hash.h:33 | with a signed `char`, bytes below 0x80 still give FNV-1a |
| Hash.SignExtensionChangesHash | GaLib/include/galib/util/hash.h:33 | with a signed `char`, byte 0x80 hashes differently from FNV-1a |
| Hash.GaHash | GaLib/include/galib/util/hash.h:45-49 | `gahash` is FNV-1a of the string's bytes with unsigned `char`, and for 7-bit strings on any platform |
| Dates.Wrap | GaLib/include/galib/util/date.h:17 | two's-complement wrap lands in range and differs from the input by a multiple of the modulus |
| Dates.TruncDiv | GaLib/include/galib/util/date.h:19-23 | C++ division rounds toward zero, for negative intervals too |
| Dates.IntervalAsWrittenWraps | GaLib/include/galib/util/date.h:16-17 | the 32-bit `int` arithmetic gives the exact millisecond count wrapped to 32 bits |
| Dates.IntervalAgreesInRange | GaLib/include/galib/util/date.h:16-17 | when the exact count fits in 32 bits, the as-written and exact intervals agree |
| Dates.IntervalOverflowsFrom25Days | GaLib/include/galib/util/date.h:16-17 | from 25 days in either direction the 32-bit arithmetic is wrong |
| Dates.TwentyFiveDays | GaLib/include/galib/util/date.h:17 | 25 days comes out as -2134967296 ms instead of 2160000000 |
| Dates.TotalsTruncate | GaLib/include/galib/util/date.h:19-23 | the totals round toward zero: -1500 ms is -1 whole second, where floor division gives -2 |
| Dates.SubUndoesAdd | GaLib/include/galib/util/date.h:97-113 | subtracting an interval undoes adding it, with 64-bit wrap |
| Dates.AddUndoesSub | GaLib/include/galib/util/date.h:97-113 | adding an interval undoes subtracting it |
| Dates.AddDifference | GaLib/include/galib/util/date.h:92-100 | adding the difference `e.sub(d)` to d gives e |
| Dates.CompareZeroIffEquals | GaLib/include/galib/util/date.h:115-129 | `compare` is zero exactly when the dates are equal, and `!=` is the negation of `==` |
| Dates.CompareSign | GaLib/include/galib/util/date.h:115-117 | without overflow, the sign of `compare` orders the dates |
| Dates.CompareWraps | GaLib/include/galib/util/date.h:115-117 | far-apart dates compare the wrong way, because the difference wraps |
| Dates.ValidityOfConstants | GaLib/include/galib/util/date.h:135-137 | the default date is invalid, `minValue` and `maxValue` are valid, and `minValue` is the least valid date |
| Dates.TimeTRoundTrip | GaLib/include/galib/util/date.h:139-142 | converting seconds to a date and back gives the seconds |
| Dates.DateRoundTrip | GaLib/include/galib/util/date.h:216-218 | converting a date to seconds and back is exact when the date has no milliseconds |
| DateParse.MatchLength | GaLib/include/galib/util/date.h:280-316 | the scan covers the longest prefix where format and input both continue and each digit field meets a digit |
| DateParse.ParseGeneric | GaLib/include/galib/util/date.h:270-324 | the loop produces the `tm` fields that the matched prefix's digits spell out |
| DateParse.FeedStep | GaLib/include/galib/util/date.h:282-310 | one more matched character extends the field its format letter names by one decimal digit |
| DateParse.WalkIsParsed | GaLib/include/galib/util/date.h:270-324 | the character-by-character walk gives the declarative result |
| DateParse.ParsesFullLayout | GaLibTest/util/date.cpp:17-31 | "2014-02-02 15:13:12" under "yyyy-MM-dd HH:mm:ss", the layout of date.h:242 and 252, gives year 114, month 1, day 2, hour 15, minute 13 and second 12 |
| DateParse.ParsesYearMonth | GaLibTest/util/date.cpp:17-31 | "2014-02" with "yyyy-MM" gives year 114 (from 1900) and month 1 (from 0) |
| DateParse.SeparatorsAreNotCompared | GaLib/include/galib/util/date.h:311-313 | non-letter format characters match any input character |
| DateParse.StopsAtMismatch | GaLib/include/galib/util/date.h:288 | a non-digit under a field letter stops the parse, keeping the fields parsed so far |
| DateParse.StopsAtNul | GaLib/include/galib/util/date.h:280 | a NUL in the input ends the parse |
| Readers.StrNCopy | GaLib/include/galib/io/reader.h:58 | `strncpy` writes exactly s characters, and they are the source's when it holds no NUL |
| Readers.StringRead | GaLib/include/galib/io/reader.h:50-62 | a read returns at most n bytes and advances the index by the count; it returns fewer only at the end, and the bytes are the next slice of the buffer |
| Readers.ConsecutiveReads | GaLib/include/galib/io/reader.h:53-59 | two successive reads return consecutive, non-overlapping slices |
| Readers.DrainReadsAll | GaLib/include/galib/io/reader.h:50-62 | reading until 0 yields the rest of the buffer |
| Readers.SourceRead | GaLib/include/galib/io/reader.h:11-16 | a read from the underlying reader returns a prefix of what remains, and 0 only at the end |
| Readers.NewBuffered | GaLib/include/galib/io/reader.h:34 | a new buffered reader holds nothing buffered, so its content is the source's |
| Readers.BufferedRead | GaLib/include/galib/io/reader.h:64-95 | the corrected read returns at most n bytes, fewer only at the end, and what it returns followed by what remains is what there was; with n bytes buffered it does not call the source |
| Readers.ReadWithIsBufferedRead | GaLib/include/galib/io/reader.h:64-95 | the corrected loop computes the corrected read |
| Readers.CopyWithinBuffer | GaLib/include/galib/io/reader.h:66-77 | with more than n bytes buffered, the read is served from the buffer alone |
| Readers.ReadTakesPrefix | GaLib/include/galib/io/reader.h:64-95 | the read returns the first min(n, available) bytes, and the rest remains |
| Readers.LoopTransparent | GaLib/include/galib/io/reader.h:79-93 | the refill loop loses and duplicates nothing |
| Readers.RefillAsWritten | GaLib/include/galib/io/reader.h:87-92 | as written, a refill adds to the stale offsets instead of resetting them |
| Readers.OffsetsDriftAsWritten | GaLib/include/galib/io/reader.h:90-91 | as written, reads of 3, 1 and 2 bytes from chunks "abc","xyz" return stale buffer bytes on the third read |
| Readers.StaleRead | GaLib/include/galib/io/reader.h:66-78 | as written, a read of exactly the buffered span returns that span, whatever it holds, and resets the offsets |
| Readers.ThreeReadsInOrder | GaLib/include/galib/io/reader.h:64-95 | corrected, the same three reads return the data in order |
| Readers.OverrunsBufferAsWritten | GaLib/include/galib/io/reader.h:90-91 | as written, the end offset reaches twice `BufferSize` and the next read goes past the array |
| Nullables.Value | GaLib/include/galib/util/nullable.h:54-57 | `value()` succeeds exactly when the value is set, and otherwise throws |
| Nullables.Empty | GaLib/include/galib/util/nullable.h:18 | a default `Nullable` is empty |
| Nullables.Of | GaLib/include/galib/util/nullable.h:19 | `Nullable(v)` holds v |
| Nullables.Swap | GaLib/include/galib/util/nullable.h:22-25 | `swap` exchanges the contents |
| Nullables.Assign | GaLib/include/galib/util/nullable.h:27-30 | assigning a `Nullable` gives its contents |
| Nullables.AssignValue | GaLib/include/galib/util/nullable.h:32-36 | assigning a value makes the `Nullable` hold it |
| Nullables.RemoveValue | GaLib/include/galib/util/nullable.h:59-62 | `removeValue` empties the `Nullable` and resets the payload to `T()` |
| Nullables.Equals | GaLib/include/galib/util/nullable.h:38-40 | `==` compares flag and payload |
| Nullables.NotEquals | GaLib/include/galib/util/nullable.h:42-44 | `!=` holds exactly when the contents differ |
| Nullables.EqualsValue | GaLib/include/galib/util/nullable.h:46-48 | `== v` holds exactly when the `Nullable` holds v |
| Nullables.NotEqualsValue | GaLib/include/galib/util/nullable.h:50-52 | `!= v` holds exactly when it does not hold v |
| Nullables.ValueComparisonsComplement | GaLib/include/galib/util/nullable.h:46-52 | `== v` and `!= v` are each other's negation |
| Nullables.ComparisonsComplement | GaLib/include/galib/util/nullable.h:38-44 | when empty `Nullable`s store `T()`, `!=` is the negation of `==` and both compare the contents |
| Nullables.ComparisonsNeedCanonical | GaLib/include/galib/util/nullable.h:38-44 | two empty `Nullable`s with different payloads are neither equal nor unequal |
| Nullables.OperationsKeepCanonical | GaLib/include/galib/util/nullable.h:18-36 | every constructor and operation keeps `T()` in empty `Nullable`s |
| Nullables.SwapAndAssign | GaLib/include/galib/util/nullable.h:22-30 | swapping twice restores both, and after `a = b`, `a == b` |
| Nullables.AssignThenRemove | GaLib/include/galib/util/nullable.h:32-62 | setting then removing a value gives a default `Nullable` |
| Objects.Put | GaLib/include/galib/util/object.h:39-49 | writing one object changes only that object |
| Objects.RemoveFromList | GaLib/include/galib/util/object.h:55-62 | the neighbours are joined around the object; parents and first children are untouched; the object's own links are cleared only in the corrected version |
| Objects.UnlinkDetached | GaLib/include/galib/util/object.h:55-62 | removing a detached object changes nothing |
| Objects.InsertInList | GaLib/include/galib/util/object.h:65-77 | a detached object is spliced directly after `self`, and only the neighbours change |
| Objects.RemoveChild | GaLib/include/galib/util/object.h:79-88 | it succeeds exactly when the child's parent is this object, and otherwise changes nothing; the child's parent becomes null; corrected, the first child changes only when it was the removed child |
| Objects.SetParent | GaLib/include/galib/util/object.h:90-104 | the parent is set, the new parent has children, and the object is its first child or directly after it |
| Objects.NewObject | GaLib/include/galib/util/object.h:20-21 | a new object gets the given parent, which then has children: the new object is its first child or comes right after it |
| Objects.AdoptOnlyChildAndRelease | GaLib/include/galib/util/object.h:79-104 | adopting a first child and removing it restores the tree |
| Objects.AdoptSiblingAndRelease | GaLib/include/galib/util/object.h:79-104 | adopting a second child places it after the first, and removing it restores the tree |
| Objects.SpliceThenUnlink | GaLib/include/galib/util/object.h:55-77 | splicing then unlinking restores each object |
| Objects.InsertDetached | GaLib/include/galib/util/object.h:65-77 | inserting a detached object is a plain splice |
| Objects.RemoveLaterChildAsWritten | GaLib/include/galib/util/object.h:84 | as written, removing a non-first child makes its successor the first child, losing the real first child |
| Objects.ReparentFirstChildAsWritten | GaLib/include/galib/util/object.h:55-67 | as written, re-parenting a first child to the same parent reuses its stale links and makes a two-object cycle |
| Objects.ReparentFirstChild | GaLib/include/galib/util/object.h:55-104 | corrected, the other child becomes first and the re-parented one follows it |

Two predicates are not in the table because their definitions are the source's conditions:
- `Paths.IsSep` (file_system.cpp:549) is '/' or '\\'.
- `Paths.IsAbsolute` (file_system.cpp:535-547) is a leading '/' or a drive prefix "X:\\".

## Left out

**Sources and platforms**
- The older container copies (`GaLib/include/galib/intrusive/link.h`, `list.h`, `hashset.h`, `dictionary.h` and `detail/*.h`) follow the same code and are covered by the rows above.
- `list.h:162` uses an undeclared `null`, and its anchored inserts call a method on `T`. The model follows `intrusive_containers.h`, which splices the links.
- The 32-bit branch of `hash_string` is not modelled; `size_t` is 64 bits throughout.

**Operations not modelled**
- `HashSet::deleteAll` and `Dictionary::deleteAll`: they walk like `unlinkAll` and `delete` each entry. `UnlinkAll`'s `released` sequence is what they would delete.
- The container destructors are not modelled.
- The iterator conversion constructors and `operator*`/`operator->` are not modelled.
- `DictionaryIterator::operator--` (a no-op) and the never-called `updatePrevBucket` are not modelled.
- The `DateTime` functions that call the C library are not modelled, because they depend on the time zone and the clock: `toTm`, `toString`, `fromTm`, `construct` (`mktime`), `parseStr`, `parseStrUTC`, `getDate` and `now`.
- `GaObject`'s destructor and `deleteAllChildren` are not modelled: they recurse through `delete`.
- `process.cpp` and the file-system I/O (`findInDirectory`, `readFile`, `pathExists`) are not modelled.
- CMaker's XML, JSON and process-running functions are not modelled, including the XML overload of `addPrefixToVirtualFolder`.

**Modelling choices**
- `IReader` is a queue of chunks. Every chunk it returns is taken to be one `read` call's answer.
- Pointer-offset casts are the identity on handles.
- The `Dictionary`'s null-bucket guards cannot fire: every bucket exists in the model.
- Paths.IsStrictFilename: `std::isalnum` is taken in the C locale (ASCII letters and digits).

**Scenarios and facts not proved**
- Caches.Remove: the demotion scenario of `cache_tests.cpp:37-57` is not replayed as a lemma. Its steps follow from `GetKeyValuePlaces`, `EnsureLevelLimits` and `RemoveDrops`.
- Dictionaries.Get: the miss after one entry's link is unlinked is not stated separately. `UnlinkAll` covers unlinking every entry.

**Weaker contracts**
- Caches.GetKeyValue: a tier's `_count` (an `unsigned int`) is an unbounded integer. Its 32-bit wrap would need 2^32 entries.
- DateParse.ParseGeneric: the digit accumulators are unbounded integers, so overflow of `int` on very long digit runs is not modelled.
- Readers.StringRead: the `size_t` index is unbounded, and its wrap is not modelled.
- Dictionaries.CalculateCapacity: requires n ≤ 2^63. Beyond that, the source's doubling overflows `size_t`.
- Dates.TimeTRoundTrip: requires t·1000 to fit in 64 bits. `fromTimeT` overflows beyond that.
- Dates.CompareSign: requires the difference to fit in 64 bits. `CompareWraps` shows what happens otherwise.
- Objects.SetParent: states where the object lands among the parent's children, but not that the whole sibling list stays well formed. Stale links can form cycles, as `ReparentFirstChildAsWritten` shows.
- Paths.GetSimplePath: computes on the corrected split. The source calls `splitPath` as written (file_system.cpp:494), so "/a/b" gives "/a" there. `GetSimplePathAsWritten` and `SimplePathAsWrittenExample` model that value.
- Paths.RelativePathMeaning: is proved on the corrected split. With `splitPath` as written (file_system.cpp:442-443), "/a/b" to "/a/c" gives "", not "../c", as `RelativePathAsWrittenSiblings` shows.
- Paths.RelativePathClimbs: is proved on the corrected split. With `splitPath` as written, "/root" to "/root/abc" gives "root/abc", not "abc", as `RelativePathAsWrittenFromRoot` shows.
- CMaker.Rewrite: simplifies the combined path with the corrected `getSimplePath`. As written, a build directory "/usr" with the piece `CMake Files\x` loses the one-character component "x". The same holds for `RewriteAll`, `RewriteMovesUsr` and `AddPrefixPieces`.
- Caches.EnsureLevelLimits: does not state that each moved entry was its tier's tail. `Evict` states that for a single move.

## Findings

| source | as written | input that shows it | evidently intended | confidence | as-written member | corrected member |
|---|---|---|---|---|---|---|
| intrusive_containers.h:624-629 | the bucket scans of `contains` and `put` never advance `link` | a bucket holding only 1, looking for 2 | walk the chain until it returns to the bucket | not executed | HashSets.ScanNeverAdvances | HashSets.PutAdds |
| cache.h:141 | the new size is charged to the tier the entry left | key 1 moved from tier 0 to tier 1 with size 8 | charge the tier the entry joins | not executed | Caches.RelocationChargesOldTier | Caches.GetKeyValueInv |
| file_system.cpp:423 | the last component is kept only if a separator precedes it and it has at least 2 characters | "dir", "/dir", "a/b" | keep every non-empty last component | not executed | Paths.SplitPathDropsLast | Paths.SplitPath |
| file_system.cpp:494 | `getSimplePath` simplifies the as-written split | "/a/b" gives "/a" | "/a/b" | not executed | Paths.SimplePathAsWrittenExample | Paths.SimplePathMeaning |
| file_system.cpp:442-443 | `getRelativePath` compares the as-written splits | "/a/b" to "/a/c" gives "" | "../c" | not executed | Paths.RelativePathAsWrittenSiblings | Paths.RelativePathMeaning |
| tools/cmaker/CMaker.cpp:82 | `start < input.size() - 1` drops a 1-character last piece | "a;b" splits to ["a"] | keep the last piece | not executed | CMaker.SplitAsWrittenDropsShortTail | CMaker.JoinSplit |
| GaLib/include/galib/encoding/base64.h:113 | a signed `char` indexes the decode table | byte 0xFF reads index -1 | read the byte as unsigned | not executed | Base64.SignedCharReadsOutsideTable | Base64.RoundTrip |
| GaLib/include/galib/util/hash.h:33 | the byte is sign-extended before the XOR | byte 0x80 | XOR the byte as unsigned (FNV-1a) | not executed | Hash.SignExtensionChangesHash | Hash.HashIsFnv1a |
| GaLib/include/galib/util/date.h:17 | the interval is computed in 32-bit `int` | 25 days gives -2134967296 ms | compute in 64 bits | not executed | Dates.IntervalOverflowsFrom25Days | Dates.IntervalAgreesInRange |
| GaLib/include/galib/io/reader.h:90-91 | refill adds to the old offsets instead of setting them | reads of 3, 1, 2 bytes over chunks of 3 | set the offsets to the refill | not executed | Readers.OffsetsDriftAsWritten | Readers.ReadTakesPrefix |
| GaLib/include/galib/util/object.h:84 | `removeChild` sets the first child to the removed child's successor | removing a second child | change the first child only when it is the one removed | not executed | Objects.RemoveLaterChildAsWritten | Objects.AdoptSiblingAndRelease |
| GaLib/include/galib/util/object.h:55-62 | `removeFromList` leaves the removed object's own links stale | re-parenting a first child to the same parent | clear the object's own links | not executed | Objects.ReparentFirstChildAsWritten | Objects.ReparentFirstChild |
